/**
  Removal from a subtree (`DirectoryNodeData::remove` and
  `lookup_and_remove`): an object is taken out of the first leaf that
  holds it, directory nodes that become empty are dropped, and boxes are
  recomputed on the way back up.
*/
module Removal {
  import opened Wrappers
  import opened Geometry
  import opened Nodes
  import opened Insertion

  // ---------------------------------------------------------------------
  // Specifications on the sequence of stored objects

  /** `s` without its first occurrence of `x`; `s` itself when `x` is absent. */
  function RemoveFirst(s: seq<Rect>, x: Rect): seq<Rect> {
    if s == [] then [] else if s[0] == x then s[1..] else [s[0]] + RemoveFirst(s[1..], x)
  }

  /** Removing the first occurrence removes exactly one copy, if there is one. */
  lemma {:induction false} RemoveFirstRemovesOne(s: seq<Rect>, x: Rect)
    ensures multiset(RemoveFirst(s, x)) == multiset(s) - multiset{x}
    ensures x !in s ==> RemoveFirst(s, x) == s
  {
    if s != [] {
      assert s == [s[0]] + s[1..];
      RemoveFirstRemovesOne(s[1..], x);
      if s[0] != x {
        assert multiset(RemoveFirst(s, x)) == multiset{s[0]} + multiset(RemoveFirst(s[1..], x));
      }
    }
  }

  lemma {:induction false} RemoveFirstAppend(a: seq<Rect>, b: seq<Rect>, x: Rect)
    ensures RemoveFirst(a + b, x) == if x in a then RemoveFirst(a, x) + b else a + RemoveFirst(b, x)
  {
    if a == [] {
      assert a + b == b;
    } else {
      assert (a + b)[0] == a[0] && (a + b)[1..] == a[1..] + b;
      if a[0] != x {
        RemoveFirstAppend(a[1..], b, x);
        assert x in a <==> x in a[1..];
        assert a == [a[0]] + a[1..];
      }
    }
  }

  /** The first object of `s` containing the point `p`, if any. */
  function FirstContaining(s: seq<Rect>, p: Point): (r: Option<Rect>)
    ensures r.Some? ==> r.value in s && ContainsPoint(r.value, p)
    ensures r.None? <==> forall e :: e in s ==> !ContainsPoint(e, p)
  {
    if s == [] then None
    else if ContainsPoint(s[0], p) then Some(s[0])
    else
      assert forall e :: e in s ==> e == s[0] || e in s[1..];
      FirstContaining(s[1..], p)
  }

  lemma {:induction false} FirstContainingAppend(a: seq<Rect>, b: seq<Rect>, p: Point)
    ensures FirstContaining(a + b, p)
         == if FirstContaining(a, p).Some? then FirstContaining(a, p) else FirstContaining(b, p)
  {
    if a == [] {
      assert a + b == b;
    } else if ContainsPoint(a[0], p) {
      assert (a + b)[0] == a[0];
    } else {
      assert (a + b)[0] == a[0] && (a + b)[1..] == a[1..] + b;
      FirstContainingAppend(a[1..], b, p);
    }
  }

  /** The last object of `s` containing the point `p`, if any. */
  function LastContaining(s: seq<Rect>, p: Point): (r: Option<Rect>)
    ensures r.Some? ==> r.value in s && ContainsPoint(r.value, p)
    ensures r.None? <==> forall e :: e in s ==> !ContainsPoint(e, p)
  {
    if s == [] then None
    else if ContainsPoint(s[|s| - 1], p) then Some(s[|s| - 1])
    else
      assert forall e :: e in s ==> e == s[|s| - 1] || e in s[..|s| - 1];
      LastContaining(s[..|s| - 1], p)
  }

  lemma {:induction false} LastContainingAppend(a: seq<Rect>, b: seq<Rect>, p: Point)
    ensures LastContaining(a + b, p)
         == if LastContaining(b, p).Some? then LastContaining(b, p) else LastContaining(a, p)
    decreases |b|
  {
    if b != [] {
      assert (a + b)[..|a + b| - 1] == a + b[..|b| - 1];
      LastContainingAppend(a, b[..|b| - 1], p);
    } else {
      assert a + b == a;
    }
  }

  /** The objects of `s` that do not contain the point `p`, in order. */
  function Outside(s: seq<Rect>, p: Point): (r: seq<Rect>)
    ensures forall e :: e in r <==> e in s && !ContainsPoint(e, p)
  {
    if s == [] then []
    else
      assert forall e :: e in s <==> e == s[0] || e in s[1..];
      (if ContainsPoint(s[0], p) then [] else [s[0]]) + Outside(s[1..], p)
  }

  lemma {:induction false} OutsideAppend(a: seq<Rect>, b: seq<Rect>, p: Point)
    ensures Outside(a + b, p) == Outside(a, p) + Outside(b, p)
  {
    if a == [] {
      assert a + b == b;
    } else {
      assert (a + b)[0] == a[0] && (a + b)[1..] == a[1..] + b;
      OutsideAppend(a[1..], b, p);
    }
  }

  // ---------------------------------------------------------------------
  // Facts about the children of a node

  /** An object the cached box does not cover is not stored below the node. */
  lemma OutsideBoxNotStored(d: DirNode, obj: Rect)
    requires ValidDir(d)
    requires !(d.boundingBox.Some? && ContainsRect(d.boundingBox.value, obj))
    ensures obj !in FlattenAll(d.children)
  {
    if |d.children| == 0 {
      assert FlattenAll(d.children) == [];
    } else {
      assert !ContainsRect(d.boundingBox.value, obj);
    }
  }

  /** No object below a node whose cached box misses the point `p` contains `p`. */
  lemma OutsideBoxNoneContains(d: DirNode, p: Point)
    requires ValidDir(d)
    requires !(d.boundingBox.Some? && ContainsPoint(d.boundingBox.value, p))
    ensures FirstContaining(FlattenAll(d.children), p).None?
  {
    if |d.children| == 0 {
      assert FlattenAll(d.children) == [];
    } else {
      forall e | e in FlattenAll(d.children) ensures !ContainsPoint(e, p) {
        assert ContainsRect(d.boundingBox.value, e);
      }
    }
  }

  /**
    Taking `obj` out of the child at `i`, when no earlier child holds it,
    takes it out of the objects of all children at that place.
  */
  lemma RemovedAt(cs: seq<Node>, i: nat, obj: Rect)
    requires i < |cs| && obj !in FlattenAll(cs[..i]) && obj in Flatten(cs[i])
    ensures RemoveFirst(FlattenAll(cs), obj)
         == FlattenAll(cs[..i]) + RemoveFirst(Flatten(cs[i]), obj) + FlattenAll(cs[i + 1..])
  {
    FlattenAllSplit(cs, i);
    RemoveFirstAppend(FlattenAll(cs[..i]) + Flatten(cs[i]), FlattenAll(cs[i + 1..]), obj);
    RemoveFirstAppend(FlattenAll(cs[..i]), Flatten(cs[i]), obj);
  }

  /** Dropping a child keeps the other children valid. */
  lemma DroppedChildValid(cs: seq<Node>, i: nat, depth: nat)
    requires ValidChildren(cs, depth) && i < |cs|
    ensures ValidChildren(cs[..i] + cs[i + 1..], depth)
  {
    var rest := cs[..i] + cs[i + 1..];
    forall j | 0 <= j < |rest| ensures ValidChild(rest[j], depth) {
      if j < i {
        assert rest[j] == cs[j];
      } else {
        assert rest[j] == cs[j + 1];
      }
    }
  }

  /** The objects left when the child at `i`, which held `obj` alone, is dropped. */
  lemma DroppedHolderObjects(cs: seq<Node>, i: nat, obj: Rect)
    requires i < |cs| && obj !in FlattenAll(cs[..i]) && obj in Flatten(cs[i])
    requires RemoveFirst(Flatten(cs[i]), obj) == []
    ensures obj in FlattenAll(cs)
    ensures FlattenAll(cs[..i] + cs[i + 1..]) == RemoveFirst(FlattenAll(cs), obj)
  {
    FlattenAllHas(cs, i, obj);
    RemovedAt(cs, i, obj);
    FlattenAllAppend(cs[..i], cs[i + 1..]);
  }

  /** The objects left when the child at `i` gave up `obj` and came back as `c`. */
  lemma ReplacedHolderObjects(cs: seq<Node>, i: nat, obj: Rect, c: Node)
    requires i < |cs| && obj !in FlattenAll(cs[..i]) && obj in Flatten(cs[i])
    requires Flatten(c) == RemoveFirst(Flatten(cs[i]), obj)
    ensures obj in FlattenAll(cs)
    ensures FlattenAll(cs[i := c]) == RemoveFirst(FlattenAll(cs), obj)
  {
    FlattenAllHas(cs, i, obj);
    RemovedAt(cs, i, obj);
    FlattenAllSplit(cs[i := c], i);
    assert cs[i := c][..i] == cs[..i] && cs[i := c][i + 1..] == cs[i + 1..];
  }

  /**
    The child at `i` held `obj` alone and is dropped: the remaining
    children hold the objects without `obj` and get an exact box.
  */
  lemma DroppedHolder(d: DirNode, i: nat, obj: Rect)
    requires ValidDir(d) && i < |d.children|
    requires obj !in FlattenAll(d.children[..i]) && obj in Flatten(d.children[i])
    requires RemoveFirst(Flatten(d.children[i]), obj) == []
    ensures obj in FlattenAll(d.children)
    ensures FlattenAll(d.children[..i] + d.children[i + 1..]) == RemoveFirst(FlattenAll(d.children), obj)
    ensures ValidDir(d.(children := d.children[..i] + d.children[i + 1..],
                        boundingBox := ChildrenBox(d.children[..i] + d.children[i + 1..])))
  {
    DroppedHolderObjects(d.children, i, obj);
    DroppedChildValid(d.children, i, d.depth);
    ChildrenBoxIsExact(d.children[..i] + d.children[i + 1..], d.depth);
  }

  /**
    The child at `i` gave up `obj` and came back as `c`: the children hold
    the objects without `obj` and get an exact box.
  */
  lemma ReplacedHolder(d: DirNode, i: nat, obj: Rect, c: Node)
    requires ValidDir(d) && i < |d.children| && ValidChild(c, d.depth)
    requires obj !in FlattenAll(d.children[..i]) && obj in Flatten(d.children[i])
    requires Flatten(c) == RemoveFirst(Flatten(d.children[i]), obj)
    ensures obj in FlattenAll(d.children)
    ensures FlattenAll(d.children[i := c]) == RemoveFirst(FlattenAll(d.children), obj)
    ensures ValidDir(d.(children := d.children[i := c], boundingBox := ChildrenBox(d.children[i := c])))
  {
    ReplacedHolderObjects(d.children, i, obj, c);
    ReplacedChildValid(d.children, i, c, d.depth);
    ChildrenBoxIsExact(d.children[i := c], d.depth);
  }

  /** Removing the first `x` leaves nothing only from `[x]`. */
  lemma RemoveFirstLeavesNothing(s: seq<Rect>, x: Rect)
    requires x in s && RemoveFirst(s, x) == []
    ensures s == [x]
  {
    RemoveFirstRemovesOne(s, x);
    assert multiset(s) == multiset{x} by {
      assert multiset(s) - multiset{x} == multiset{};
      assert x in multiset(s);
    }
    assert |s| == |multiset(s)| == 1;
    assert s[0] in multiset(s);
  }

  // ---------------------------------------------------------------------
  // `remove`

  /**
    `DirectoryNodeData::remove`: when the cached box covers `obj`, visits
    the children in order until one of them gives up an object equal to
    `obj`, drops that child if it is a leaf or became empty, and
    recomputes the box. Exactly the first stored copy of `obj` (in
    depth-first order) disappears; the node is unchanged when there is
    none.
  */
  method Remove(d: DirNode, obj: Rect) returns (d': DirNode, removed: bool)
    requires ValidDir(d)
    decreases d
    ensures removed <==> obj in FlattenAll(d.children)
    ensures FlattenAll(d'.children) == RemoveFirst(FlattenAll(d.children), obj)
    ensures ValidDir(d') && d'.depth == d.depth
    ensures !removed ==> d' == d
  {
    if !(d.boundingBox.Some? && ContainsRect(d.boundingBox.value, obj)) {
      OutsideBoxNotStored(d, obj);
      RemoveFirstRemovesOne(FlattenAll(d.children), obj);
      return d, false;
    }
    for i := 0 to |d.children|
      invariant obj !in FlattenAll(d.children[..i])
    {
      FlattenAllPrefix(d.children, i);
      match d.children[i] {
        case Directory(data) =>
          assert ValidChild(d.children[i], d.depth);
          var data', found := Remove(data, obj);
          if found {
            if |data'.children| == 0 {
              DroppedHolder(d, i, obj);
              d' := UpdateMbr(d.(children := d.children[..i] + d.children[i + 1..]));
            } else {
              ReplacedHolder(d, i, obj, Directory(data'));
              d' := UpdateMbr(d.(children := d.children[i := Directory(data')]));
            }
            return d', true;
          }
        case Leaf(e) =>
          if e == obj {
            DroppedHolder(d, i, obj);
            d' := UpdateMbr(d.(children := d.children[..i] + d.children[i + 1..]));
            return d', true;
          }
      }
    }
    assert d.children[..|d.children|] == d.children;
    RemoveFirstRemovesOne(FlattenAll(d.children), obj);
    return d, false;
  }

  /**
    `remove` as written: when the child that gave up `obj` is a directory
    node that is still non-empty, the node keeps its old box, which may
    now be larger than the box of what it holds. A child is dropped only
    if it held `obj` alone.
  */
  method RemoveAsWritten(d: DirNode, obj: Rect) returns (d': DirNode, removed: bool)
    requires ValidDir(d)
    decreases d
    ensures removed <==> obj in FlattenAll(d.children)
    ensures FlattenAll(d'.children) == RemoveFirst(FlattenAll(d.children), obj)
    ensures |d'.children| == |d.children| ==> d'.boundingBox == d.boundingBox
    ensures |d'.children| != |d.children| ==> exists i :: 0 <= i < |d.children| && Flatten(d.children[i]) == [obj]
  {
    if !(d.boundingBox.Some? && ContainsRect(d.boundingBox.value, obj)) {
      OutsideBoxNotStored(d, obj);
      RemoveFirstRemovesOne(FlattenAll(d.children), obj);
      return d, false;
    }
    for i := 0 to |d.children|
      invariant obj !in FlattenAll(d.children[..i])
    {
      FlattenAllPrefix(d.children, i);
      match d.children[i] {
        case Directory(data) =>
          assert ValidChild(d.children[i], d.depth);
          var data', found := RemoveAsWritten(data, obj);
          if found {
            if |data'.children| == 0 {
              assert FlattenAll(data'.children) == [];
              RemoveFirstLeavesNothing(Flatten(d.children[i]), obj);
              DroppedHolderObjects(d.children, i, obj);
              d' := UpdateMbr(d.(children := d.children[..i] + d.children[i + 1..]));
            } else {
              ReplacedHolderObjects(d.children, i, obj, Directory(data'));
              d' := d.(children := d.children[i := Directory(data')]);
            }
            return d', true;
          }
        case Leaf(e) =>
          if e == obj {
            DroppedHolderObjects(d.children, i, obj);
            d' := UpdateMbr(d.(children := d.children[..i] + d.children[i + 1..]));
            return d', true;
          }
      }
    }
    assert d.children[..|d.children|] == d.children;
    RemoveFirstRemovesOne(FlattenAll(d.children), obj);
    return d, false;
  }

  // ---------------------------------------------------------------------
  // `lookup_and_remove`

  /** Objects none of which contains `p` are all kept. */
  lemma {:induction false} OutsideOfNone(s: seq<Rect>, p: Point)
    requires forall e :: e in s ==> !ContainsPoint(e, p)
    ensures Outside(s, p) == s
  {
    if s != [] {
      assert forall e :: e in s[1..] ==> e in s;
      OutsideOfNone(s[1..], p);
      assert s == [s[0]] + s[1..];
    }
  }

  /**
    `lookup_and_remove`, corrected to stop at the first object containing
    `p`: when the cached box contains `p`, visits the children in order
    until one of them gives up an object containing `p`, drops that child
    if it is a leaf or became empty, and recomputes the box. The object
    removed and returned is the first stored object containing `p` (in
    depth-first order); the node is unchanged when there is none.
  */
  method LookupAndRemove(d: DirNode, p: Point) returns (d': DirNode, result: Option<Rect>)
    requires ValidDir(d)
    decreases d
    ensures result == FirstContaining(FlattenAll(d.children), p)
    ensures result.Some? ==> FlattenAll(d'.children) == RemoveFirst(FlattenAll(d.children), result.value)
    ensures ValidDir(d') && d'.depth == d.depth
    ensures result.None? ==> d' == d
  {
    if !(d.boundingBox.Some? && ContainsPoint(d.boundingBox.value, p)) {
      OutsideBoxNoneContains(d, p);
      return d, None;
    }
    for i := 0 to |d.children|
      invariant FirstContaining(FlattenAll(d.children[..i]), p).None?
    {
      FlattenAllPrefix(d.children, i);
      FirstContainingAppend(FlattenAll(d.children[..i]), Flatten(d.children[i]), p);
      match d.children[i] {
        case Directory(data) =>
          assert ValidChild(d.children[i], d.depth);
          var data', found := LookupAndRemove(data, p);
          if found.Some? {
            FoundAt(d.children, i, p);
            if |data'.children| == 0 {
              DroppedHolder(d, i, found.value);
              d' := UpdateMbr(d.(children := d.children[..i] + d.children[i + 1..]));
            } else {
              ReplacedHolder(d, i, found.value, Directory(data'));
              d' := UpdateMbr(d.(children := d.children[i := Directory(data')]));
            }
            return d', found;
          }
        case Leaf(e) =>
          if ContainsPoint(e, p) {
            FoundAt(d.children, i, p);
            DroppedHolder(d, i, e);
            d' := UpdateMbr(d.(children := d.children[..i] + d.children[i + 1..]));
            return d', Some(e);
          }
      }
    }
    assert d.children[..|d.children|] == d.children;
    return d, None;
  }

  /**
    When no object below the first `i` children contains `p`, the first
    one containing `p` below child `i` is the first one of all children,
    and no earlier child holds it.
  */
  lemma FoundAt(cs: seq<Node>, i: nat, p: Point)
    requires i < |cs| && FirstContaining(FlattenAll(cs[..i]), p).None?
    requires FirstContaining(Flatten(cs[i]), p).Some?
    ensures FirstContaining(FlattenAll(cs), p) == FirstContaining(Flatten(cs[i]), p)
    ensures FirstContaining(Flatten(cs[i]), p).value !in FlattenAll(cs[..i])
  {
    FlattenAllSplit(cs, i);
    FirstContainingAppend(FlattenAll(cs[..i]) + Flatten(cs[i]), FlattenAll(cs[i + 1..]), p);
    FirstContainingAppend(FlattenAll(cs[..i]), Flatten(cs[i]), p);
  }

  /**
    `lookup_and_remove` as written: when the cached box contains `p`, it
    drains all children, takes out every object containing `p` anywhere
    below (dropping directory nodes that become empty) and returns the
    last of them; the box is recomputed when something was taken out.
  */
  method LookupAndRemoveAsWritten(d: DirNode, p: Point) returns (d': DirNode, result: Option<Rect>)
    requires ValidDir(d)
    decreases d
    ensures result == LastContaining(FlattenAll(d.children), p)
    ensures FlattenAll(d'.children) == Outside(FlattenAll(d.children), p)
    ensures ValidDir(d') && d'.depth == d.depth
    ensures result.None? ==> d' == d
  {
    if !(d.boundingBox.Some? && ContainsPoint(d.boundingBox.value, p)) {
      OutsideBoxNoneContains(d, p);
      OutsideOfNone(FlattenAll(d.children), p);
      return d, None;
    }
    var kept;
    kept, result := DrainChildren(d.children, p, d.depth);
    d' := d.(children := kept);
    if result.Some? {
      ChildrenBoxIsExact(kept, d.depth);
      d' := UpdateMbr(d');
    }
  }

  /**
    The loop of `lookup_and_remove` as written: drains every child in
    order and collects what goes back into the node.
  */
  method DrainChildren(cs: seq<Node>, p: Point, depth: nat) returns (kept: seq<Node>, result: Option<Rect>)
    requires ValidChildren(cs, depth)
    decreases cs
    ensures result == LastContaining(FlattenAll(cs), p)
    ensures FlattenAll(kept) == Outside(FlattenAll(cs), p)
    ensures ValidChildren(kept, depth)
    ensures result.None? ==> kept == cs
  {
    kept := [];
    result := None;
    for i := 0 to |cs|
      invariant FlattenAll(kept) == Outside(FlattenAll(cs[..i]), p)
      invariant result == LastContaining(FlattenAll(cs[..i]), p)
      invariant ValidChildren(kept, depth)
      invariant result.None? ==> kept == cs[..i]
    {
      assert ValidChild(cs[i], depth);
      var kept', r := DrainChild(cs[i], p, depth);
      DrainStep(cs, i, p, kept, kept', r, depth);
      kept := kept + kept';
      result := if r.Some? then r else result;
    }
    assert cs[..|cs|] == cs;
  }

  /**
    One child drained by `lookup_and_remove` as written: a leaf containing
    `p` is taken out, a directory node gives up every object containing
    `p` and is kept unless it became empty. `kept` is what goes back into
    the node.
  */
  method DrainChild(c: Node, p: Point, depth: nat) returns (kept: seq<Node>, result: Option<Rect>)
    requires ValidChild(c, depth)
    decreases c
    ensures result == LastContaining(Flatten(c), p)
    ensures FlattenAll(kept) == Outside(Flatten(c), p)
    ensures ValidChildren(kept, depth)
    ensures result.None? ==> kept == [c]
  {
    FlattenAllSingleton(c);
    match c {
      case Directory(data) =>
        var data', r := LookupAndRemoveAsWritten(data, p);
        result := r;
        if |data'.children| > 0 {
          kept := [Directory(data')];
          FlattenAllSingleton(Directory(data'));
          assert ValidChild(Directory(data'), depth);
        } else {
          kept := [];
        }
      case Leaf(b) =>
        OfSingleObject(b, p);
        if ContainsPoint(b, p) {
          result := Some(b);
          kept := [];
        } else {
          result := None;
          kept := [c];
        }
    }
  }

  /** What a leaf holding `b` contributes to a drain. */
  lemma OfSingleObject(b: Rect, p: Point)
    ensures LastContaining([b], p) == if ContainsPoint(b, p) then Some(b) else None
    ensures Outside([b], p) == if ContainsPoint(b, p) then [] else [b]
  {
    assert [b][1..] == [];
  }

  /** The bookkeeping of one drained child. */
  lemma DrainStep(cs: seq<Node>, i: nat, p: Point, kept: seq<Node>, kept': seq<Node>, r: Option<Rect>, depth: nat)
    requires i < |cs|
    requires FlattenAll(kept) == Outside(FlattenAll(cs[..i]), p)
    requires FlattenAll(kept') == Outside(Flatten(cs[i]), p)
    requires r == LastContaining(Flatten(cs[i]), p)
    requires ValidChildren(kept, depth) && ValidChildren(kept', depth)
    requires r.None? ==> kept' == [cs[i]]
    ensures r.None? && kept == cs[..i] ==> kept + kept' == cs[..i + 1]
    ensures FlattenAll(kept + kept') == Outside(FlattenAll(cs[..i + 1]), p)
    ensures (if r.Some? then r else LastContaining(FlattenAll(cs[..i]), p))
         == LastContaining(FlattenAll(cs[..i + 1]), p)
    ensures ValidChildren(kept + kept', depth)
  {
    PrefixStep(cs, i);
    FlattenAllPrefix(cs, i);
    FlattenAllAppend(kept, kept');
    OutsideAppend(FlattenAll(cs[..i]), Flatten(cs[i]), p);
    LastContainingAppend(FlattenAll(cs[..i]), Flatten(cs[i]), p);
    ValidChildrenAppend(kept, kept', depth);
  }

  // ---------------------------------------------------------------------
  // Concrete trees exhibiting the behaviour of the code as written

  /** The point rectangle at `(x, y)`. */
  function Dot(x: int, y: int): (r: Rect)
    ensures r.lower == r.upper == [x, y]
  {
    PointRect([x, y])
  }

  /** A leaf-level node holding the points (0,0) and (1,1). */
  function StaleLeft(): DirNode {
    DirNode(Some(BoundingRect([0, 0], [1, 1])), [Leaf(Dot(0, 0)), Leaf(Dot(1, 1))], 1)
  }

  /** A leaf-level node holding the point (2,2). */
  function StaleRight(): DirNode {
    DirNode(Some(Dot(2, 2)), [Leaf(Dot(2, 2))], 1)
  }

  /** A tree of height 2 over `StaleLeft` and `StaleRight`. */
  function StaleExample(): DirNode {
    DirNode(Some(BoundingRect([0, 0], [2, 2])), [Directory(StaleLeft()), Directory(StaleRight())], 2)
  }

  lemma StaleLeftIsValid()
    ensures ValidDir(StaleLeft())
    ensures FlattenAll(StaleLeft().children) == [Dot(0, 0), Dot(1, 1)]
  {
    var a := StaleLeft();
    assert FlattenAll(a.children) == [Dot(0, 0), Dot(1, 1)] by {
      assert FlattenAll(a.children[1..]) == [Dot(1, 1)];
    }
    assert Tight(a.boundingBox.value, FlattenAll(a.children)) by {
      assert AttainsLower(a.boundingBox.value, FlattenAll(a.children), 0) by { assert Dot(0, 0).lower[0] == 0; }
      assert AttainsLower(a.boundingBox.value, FlattenAll(a.children), 1) by { assert Dot(0, 0).lower[1] == 0; }
      assert AttainsUpper(a.boundingBox.value, FlattenAll(a.children), 0) by { assert Dot(1, 1).upper[0] == 1; }
      assert AttainsUpper(a.boundingBox.value, FlattenAll(a.children), 1) by { assert Dot(1, 1).upper[1] == 1; }
    }
  }

  lemma StaleRightIsValid()
    ensures ValidDir(StaleRight())
    ensures FlattenAll(StaleRight().children) == [Dot(2, 2)]
  {
    TightSingleton(Dot(2, 2));
    assert FlattenAll(StaleRight().children) == [Dot(2, 2)];
  }

  lemma StaleExampleIsValid()
    ensures ValidDir(StaleExample())
    ensures FlattenAll(StaleExample().children) == [Dot(0, 0), Dot(1, 1), Dot(2, 2)]
  {
    var d := StaleExample();
    StaleLeftIsValid();
    StaleRightIsValid();
    assert ValidChild(d.children[0], 2) && ValidChild(d.children[1], 2);
    assert FlattenAll(d.children) == [Dot(0, 0), Dot(1, 1), Dot(2, 2)] by {
      assert FlattenAll(d.children[1..]) == [Dot(2, 2)];
    }
    TightSingleton(Dot(2, 2));
    TightAddRect(StaleLeft().boundingBox.value, [Dot(0, 0), Dot(1, 1)], Dot(2, 2), [Dot(2, 2)]);
    var r := AddRect(StaleLeft().boundingBox.value, Dot(2, 2));
    assert r.lower[0] == 0 && r.lower[1] == 0 && r.upper[0] == 2 && r.upper[1] == 2;
    assert r == d.boundingBox.value;
    assert [Dot(0, 0), Dot(1, 1)] + [Dot(2, 2)] == FlattenAll(d.children);
  }

  /**
    Removing (0,0) from `StaleExample` with `remove` as written: the
    leaf-level node it came from keeps a child, so the root keeps its box
    from (0,0) to (2,2), which no longer is the box around what remains.
  */
  method StaleBoxAfterRemove() returns (d': DirNode)
    ensures FlattenAll(d'.children) == [Dot(1, 1), Dot(2, 2)]
    ensures d'.boundingBox == Some(BoundingRect([0, 0], [2, 2]))
    ensures !ExactBox(d'.boundingBox, d'.children)
  {
    StaleExampleIsValid();
    var d := StaleExample();
    var removed;
    d', removed := RemoveAsWritten(d, Dot(0, 0));
    assert FlattenAll(d'.children) == [Dot(1, 1), Dot(2, 2)];
    StaleLeftIsValid();
    StaleRightIsValid();
    assert Flatten(d.children[0]) == [Dot(0, 0), Dot(1, 1)];
    assert Flatten(d.children[1]) == [Dot(2, 2)];
    assert |d'.children| == |d.children|;
    assert !AttainsLower(d'.boundingBox.value, FlattenAll(d'.children), 0);
  }

  /** A leaf-level root holding the point (0,0) and the square from (0,0) to (1,1). */
  function OverlapExample(): DirNode {
    DirNode(Some(BoundingRect([0, 0], [1, 1])), [Leaf(Dot(0, 0)), Leaf(BoundingRect([0, 0], [1, 1]))], 1)
  }

  lemma OverlapExampleIsValid()
    ensures ValidDir(OverlapExample())
    ensures FlattenAll(OverlapExample().children) == [Dot(0, 0), BoundingRect([0, 0], [1, 1])]
  {
    var d := OverlapExample();
    assert FlattenAll(d.children) == [Dot(0, 0), BoundingRect([0, 0], [1, 1])] by {
      assert FlattenAll(d.children[1..]) == [BoundingRect([0, 0], [1, 1])];
    }
    assert Tight(d.boundingBox.value, FlattenAll(d.children)) by {
      assert AttainsLower(d.boundingBox.value, FlattenAll(d.children), 0) by { assert Dot(0, 0).lower[0] == 0; }
      assert AttainsLower(d.boundingBox.value, FlattenAll(d.children), 1) by { assert Dot(0, 0).lower[1] == 0; }
    }
  }

  /**
    `lookup_and_remove` as written at (0,0) on `OverlapExample`: both
    objects contain the point and both are taken out, though only one is
    returned, so a tree counting one removal loses track of its size.
  */
  method BothRemovedByLookup() returns (d': DirNode, result: Option<Rect>)
    ensures result == Some(BoundingRect([0, 0], [1, 1]))
    ensures FlattenAll(d'.children) == []
    ensures |FlattenAll(d'.children)| == |FlattenAll(OverlapExample().children)| - 2
  {
    OverlapExampleIsValid();
    d', result := LookupAndRemoveAsWritten(OverlapExample(), [0, 0]);
    var s := FlattenAll(OverlapExample().children);
    assert s[1..] == [BoundingRect([0, 0], [1, 1])];
    assert Outside(s[1..][1..], [0, 0]) == [];
    assert s[..1] == [Dot(0, 0)];
  }
}
