/**
  The tree (`RTree`): the options, a root directory node and the number
  of stored objects, with the public operations that drive the node-level
  algorithms.
*/
module Tree {
  import opened Wrappers
  import opened Geometry
  import opened Options
  import opened Nodes
  import opened Insertion
  import Removal
  import Queries
  import Neighbors
  import Iteration

  /**
    The root split of `RTree::insert`: a new root one level higher whose
    children are the old root and the node split off it.
  */
  method GrowRoot(oldRoot: DirNode, node: Node) returns (r: DirNode)
    requires ValidDir(oldRoot) && |oldRoot.children| > 0 && ValidChild(node, oldRoot.depth + 1)
    ensures r.depth == oldRoot.depth + 1 && r.children == [Directory(oldRoot), node]
    ensures ValidRoot(r)
    ensures Elements(r) == Elements(oldRoot) + Elements(node.data)
  {
    r := AddChildren(DirNode(None, [], oldRoot.depth + 1), [Directory(oldRoot), node]);
    assert [] + [Directory(oldRoot), node] == [Directory(oldRoot), node];
    assert ValidChildren(r.children, r.depth);
    ChildrenBoxIsExact(r.children, r.depth);
    assert [Directory(oldRoot), node] == [Directory(oldRoot)] + [node];
    FlattenAllAppend([Directory(oldRoot)], [node]);
    FlattenAllSingleton(Directory(oldRoot));
    FlattenAllSingleton(node);
  }

  /** Popping the last node off the insertion stack. */
  lemma PoppedElements(stack: seq<Node>)
    requires |stack| > 0
    ensures multiset(FlattenAll(stack))
         == multiset(FlattenAll(stack[..|stack| - 1])) + multiset(Flatten(stack[|stack| - 1]))
  {
    FlattenAllSplit(stack, |stack| - 1);
    assert stack[|stack|..] == [];
  }

  /** The insertion stack after popping its last node and pushing `handedBack`. */
  lemma Requeued(stack: seq<Node>, handedBack: seq<Node>, depth: nat, depth': nat)
    requires |stack| > 0 && Orphans(stack, depth) && Orphans(handedBack, depth') && depth <= depth'
    ensures Orphans(stack[..|stack| - 1] + handedBack, depth')
  {
    var s := stack[..|stack| - 1] + handedBack;
    forall i | 0 <= i < |s| ensures ValidNode(s[i]) && Depth(s[i]) < depth' {
      if i < |stack| - 1 {
        assert s[i] == stack[i];
      } else {
        assert s[i] == handedBack[i - (|stack| - 1)];
      }
    }
  }

  /**
    The bookkeeping of one round of the insertion loop: the objects in the
    tree and on the stack stay the same when a node moves from the stack
    into the tree and the tree hands other nodes back.
  */
  lemma Rebalanced<T>(tree: multiset<T>, stack: multiset<T>, rest: multiset<T>, next: multiset<T>,
                      tree': multiset<T>, handedBack: multiset<T>, total: multiset<T>)
    requires tree + stack == total && stack == rest + next
    requires tree' + handedBack == tree + next
    ensures tree' + (rest + handedBack) == total
  {
    forall x ensures (tree' + (rest + handedBack))[x] == total[x] {
      assert (tree' + handedBack)[x] == (tree + next)[x];
    }
  }

  /**
    One round of the insertion loop of `RTree::insert`: inserts `next` at
    the root, grows a new root if the root split, and hands back the nodes
    a forced reinsertion took out. Only a forced reinsertion changes the
    state, and it uses up one level's flag.
  */
  method InsertAtRoot(root: DirNode, next: Node, state: InsertionState, opts: RTreeOptions)
    returns (root': DirNode, handedBack: seq<Node>, aborted: bool)
    requires Options.Valid(opts) && ValidRoot(root) && ValidNode(next) && Depth(next) < root.depth
    modifies state
    ensures |state.reinsertions| == |old(state.reinsertions)|
    ensures Unmarked(state.reinsertions) < Unmarked(old(state.reinsertions))
         || (state.reinsertions == old(state.reinsertions) && handedBack == [])
    ensures aborted ==> |old(state.reinsertions)| <= root.depth
    ensures !aborted ==>
      && ValidRoot(root') && root'.depth >= root.depth
      && Orphans(handedBack, root'.depth)
      && Elements(root') + multiset(FlattenAll(handedBack)) == Elements(root) + multiset(Flatten(next))
  {
    var newRoot, result := Insertion.Insert(root, next, state, opts);
    handedBack := [];
    aborted := false;
    assert multiset(FlattenAll(handedBack)) == multiset{};
    match result
    case Abort =>
      root' := root;
      aborted := true;
    case Split(node) =>
      root' := GrowRoot(newRoot, node);
      assert Elements(root') == Elements(root) + multiset(Flatten(next));
    case Reinsert(nodes) =>
      root' := newRoot;
      handedBack := nodes;
    case Complete =>
      root' := newRoot;
      assert Elements(root') == Elements(root) + multiset(Flatten(next));
  }

  /**
    The insertion loop of `RTree::insert` on the root `root`: the object
    `t` goes onto the insertion stack, and every node popped off it is
    inserted at the root until the stack is empty.
  */
  method InsertObject(root: DirNode, t: Rect, opts: RTreeOptions) returns (root': DirNode, panicked: bool)
    requires Options.Valid(opts) && ValidRoot(root)
    ensures root'.depth >= root.depth
    ensures !panicked ==> ValidRoot(root') && Elements(root') == Elements(root) + multiset{t}
    ensures panicked ==> root.depth < root'.depth
  {
    var state := new InsertionState(root.depth + 1);
    root' := root;
    var stack := [Leaf(t)];
    assert FlattenAll(stack) == [t];
    while |stack| > 0
      invariant ValidRoot(root') && root'.depth >= root.depth
      invariant |state.reinsertions| == root.depth + 1
      invariant Orphans(stack, root'.depth)
      invariant Elements(root') + multiset(FlattenAll(stack)) == Elements(root) + multiset{t}
      decreases Unmarked(state.reinsertions), |stack|
    {
      var next := stack[|stack| - 1];
      var rest := stack[..|stack| - 1];
      PoppedElements(stack);
      var r, handedBack, aborted := InsertAtRoot(root', next, state, opts);
      if aborted {
        return root', true;
      }
      FlattenAllAppend(rest, handedBack);
      Requeued(stack, handedBack, root'.depth, r.depth);
      Rebalanced(Elements(root'), multiset(FlattenAll(stack)), multiset(FlattenAll(rest)), multiset(Flatten(next)),
        Elements(r), multiset(FlattenAll(handedBack)), Elements(root) + multiset{t});
      root' := r;
      stack := rest + handedBack;
    }
    panicked := false;
  }

  /**
    The node-level part of `RTree::remove`, on the corrected node-level
    `remove` (`Removal.Remove`, which keeps every ancestor's box exact):
    removes one copy of `obj` and resets an emptied root to depth 1.
  */
  method RemoveFromRoot(root: DirNode, obj: Rect) returns (root': DirNode, removed: bool)
    requires ValidRoot(root)
    ensures ValidRoot(root')
    ensures removed <==> obj in Elements(root)
    ensures Elements(root') == Elements(root) - multiset{obj}
    ensures |FlattenAll(root'.children)| == |FlattenAll(root.children)| - (if removed then 1 else 0)
  {
    root', removed := Removal.Remove(root, obj);
    Removal.RemoveFirstRemovesOne(FlattenAll(root.children), obj);
    if |root'.children| == 0 {
      root' := root'.(depth := 1);
    }
    assert |FlattenAll(root'.children)| == |Elements(root')|;
  }

  /**
    The node-level part of `RTree::lookup_and_remove`, on the corrected
    node-level `lookup_and_remove` (`Removal.LookupAndRemove`, which takes
    out one object only): removes one object containing `p` and, when one
    was removed, resets an emptied root to depth 1.
  */
  method LookupAndRemoveFromRoot(root: DirNode, p: Point) returns (root': DirNode, result: Option<Rect>)
    requires ValidRoot(root)
    ensures ValidRoot(root')
    ensures result.None? <==> forall e :: e in Elements(root) ==> !ContainsPoint(e, p)
    ensures result.None? ==> root' == root
    ensures result.Some? ==>
      && result.value in Elements(root) && ContainsPoint(result.value, p)
      && Elements(root') == Elements(root) - multiset{result.value}
      && |FlattenAll(root'.children)| == |FlattenAll(root.children)| - 1
  {
    root', result := Removal.LookupAndRemove(root, p);
    if result.Some? {
      Removal.RemoveFirstRemovesOne(FlattenAll(root.children), result.value);
      if |root'.children| == 0 {
        root' := root'.(depth := 1);
      }
      assert |FlattenAll(root'.children)| == |Elements(root')|;
    }
  }

  /** A valid directory node has a box exactly when it stores an object. */
  lemma BoxIffStored(d: DirNode)
    requires ValidDir(d)
    ensures d.boundingBox.Some? <==> |FlattenAll(d.children)| > 0
  {
    if d.boundingBox.Some? {
      assert AttainsLower(d.boundingBox.value, FlattenAll(d.children), 0);
    }
  }

  class RTree {
    var options: RTreeOptions
    var root: DirNode
    var size: nat

    /**
      The tree invariant: valid options, a valid root (empty only at depth
      1), and `size` counts the stored objects.
    */
    ghost predicate Valid()
      reads this
    {
      && Options.Valid(options)
      && ValidRoot(root)
      && size == |FlattenAll(root.children)|
    }

    /** The stored objects. */
    ghost function Contents(): multiset<Rect>
      reads this
    {
      Elements(root)
    }

    /**
      `RTree::new_with_options`: an empty tree whose root has depth 1. The
      options must be valid, as the corrected setters guarantee.
    */
    constructor NewWithOptions(opts: RTreeOptions)
      requires Options.Valid(opts)
      ensures Valid() && options == opts
      ensures Contents() == multiset{} && size == 0 && root.depth == 1
    {
      options := opts;
      root := DirNode(None, [], 1);
      size := 0;
    }

    /** `RTree::size`: the number of stored objects. */
    function Size(): (n: nat)
      reads this
      requires Valid()
      ensures n == |Contents()|
    {
      size
    }

    /**
      `RTree::insert`: inserts `t` through the insertion stack, reinserting
      the nodes a forced reinsertion hands back and growing a new root when
      the root splits. The insertion state has one flag per level of the
      tree as it was when the insertion started; a root that grew and then
      overflows again reads past it, which panics (`panicked`).
    */
    method Insert(t: Rect) returns (panicked: bool)
      requires Valid()
      modifies this
      ensures options == old(options) && root.depth >= old(root.depth)
      ensures !panicked ==> Valid() && Contents() == old(Contents()) + multiset{t} && size == old(size) + 1
      ensures panicked ==> old(root.depth) < root.depth
    {
      var newRoot;
      newRoot, panicked := InsertObject(root, t, options);
      if !panicked {
        assert |FlattenAll(newRoot.children)| == |Elements(newRoot)| == |Elements(root)| + 1;
        size := size + 1;
      }
      root := newRoot;
    }

    /**
      `RTree::remove` over the corrected node-level removal: removes one
      stored object equal to `obj`, reports whether there was one, and
      resets an emptied root to depth 1.
    */
    method Remove(obj: Rect) returns (removed: bool)
      requires Valid()
      modifies this
      ensures Valid() && options == old(options)
      ensures removed <==> obj in old(Contents())
      ensures Contents() == old(Contents()) - multiset{obj}
      ensures size == if removed then old(size) - 1 else old(size)
      ensures |root.children| == 0 ==> root.depth == 1
    {
      if size == 0 {
        return false;
      }
      var r;
      r, removed := RemoveFromRoot(root, obj);
      if removed {
        size := size - 1;
      }
      root := r;
    }

    /**
      `RTree::lookup_and_remove` over the corrected node-level operation:
      removes and returns one stored object containing `p`; with none, the
      tree is unchanged.
    */
    method LookupAndRemove(p: Point) returns (result: Option<Rect>)
      requires Valid()
      modifies this
      ensures Valid() && options == old(options)
      ensures result.None? <==> forall e :: e in old(Contents()) ==> !ContainsPoint(e, p)
      ensures result.None? ==> root == old(root) && size == old(size)
      ensures result.Some? ==>
        && result.value in old(Contents()) && ContainsPoint(result.value, p)
        && Contents() == old(Contents()) - multiset{result.value}
        && size == old(size) - 1
    {
      if size == 0 {
        return None;
      }
      var r;
      r, result := LookupAndRemoveFromRoot(root, p);
      if result.Some? {
        size := size - 1;
        root := r;
      }
    }

    /** `RTree::contains`: whether an object equal to `obj` is stored. */
    function Contains(obj: Rect): (b: bool)
      reads this
      requires Valid()
      ensures b <==> obj in Contents()
    {
      Queries.Contains(root, obj)
    }

    /** `RTree::mbr`: the least rectangle around all stored objects, none when empty. */
    function Mbr(): (r: Option<Rect>)
      reads this
      requires Valid()
      ensures r.None? <==> |Contents()| == 0
      ensures r.Some? ==> forall e :: e in Contents() ==> ContainsRect(r.value, e)
      ensures r.Some? ==> forall c: Rect :: (forall e :: e in Contents() ==> ContainsRect(c, e)) ==> ContainsRect(c, r.value)
    {
      BoxIffStored(root);
      if root.boundingBox.Some? then
        forall c: Rect | forall e :: e in Contents() ==> ContainsRect(c, e)
          ensures ContainsRect(c, root.boundingBox.value)
        {
          TightIsLeast(root.boundingBox.value, FlattenAll(root.children), c);
        }
        root.boundingBox
      else
        None
    }

    /** `RTree::lookup`: a stored object containing `p`, none exactly when there is none. */
    method Lookup(p: Point) returns (result: Option<Rect>)
      requires Valid()
      ensures result.Some? ==> result.value in Contents() && ContainsPoint(result.value, p)
      ensures result.None? <==> forall e :: e in Contents() ==> !ContainsPoint(e, p)
    {
      if size > 0 {
        result := Queries.Lookup(root, p);
      } else {
        result := None;
      }
    }

    /** `RTree::lookup_in_rectangle`: every stored object meeting `q`, once per stored copy. */
    function LookupInRectangle(q: Rect): (r: seq<Rect>)
      reads this
      requires Valid()
      ensures forall e :: multiset(r)[e] == if Intersects(e, q) then Contents()[e] else 0
    {
      var r := if size > 0 then Queries.LookupInRectangle(root, q) else [];
      forall e ensures multiset(r)[e] == if Intersects(e, q) then Contents()[e] else 0 {
        Queries.SelectCount(FlattenAll(root.children), Queries.Hits(q), e);
      }
      r
    }

    /**
      `RTree::lookup_in_circle`: every stored object strictly closer to
      `origin` than the squared radius, once per stored copy.
    */
    function LookupInCircle(origin: Point, radius2: int): (r: seq<Rect>)
      reads this
      requires Valid()
      ensures forall e :: multiset(r)[e] == if MinDist2(e, origin) < radius2 then Contents()[e] else 0
    {
      var r := if size > 0 then Queries.LookupInCircle(root, origin, radius2) else [];
      forall e ensures multiset(r)[e] == if MinDist2(e, origin) < radius2 then Contents()[e] else 0 {
        Queries.SelectCount(FlattenAll(root.children), Queries.Near(origin, radius2), e);
      }
      r
    }

    /**
      `RTree::nearest_neighbor`: a stored object nearest to `p`; none exactly
      when the tree is empty.
    */
    method NearestNeighbor(p: Point) returns (nearest: Option<Rect>)
      requires Valid()
      ensures nearest.Some? <==> |Contents()| > 0
      ensures nearest.Some? ==> nearest.value in Contents() && MinDist2(nearest.value, p) == Neighbors.LeastDistance(Contents(), p)
    {
      if size > 0 {
        nearest := Neighbors.NearestNeighbor(root, p, None);
      } else {
        nearest := None;
      }
      Neighbors.NearestAtTop(FlattenAll(root.children), p, nearest);
    }

    /**
      `RTree::nearest_neighbors`: every stored object at the least distance
      from `p`, once per stored copy; empty for an empty tree.
    */
    method NearestNeighbors(p: Point) returns (result: seq<Rect>)
      requires Valid()
      ensures forall e :: multiset(result)[e] ==
                if |Contents()| > 0 && MinDist2(e, p) == Neighbors.LeastDistance(Contents(), p) then Contents()[e] else 0
    {
      result := [];
      if size > 0 {
        var best;
        result, best := Neighbors.NearestNeighbors(root, p, None, result);
        Neighbors.TiesAtTop(Contents(), p, best, multiset(result));
      }
    }

    /**
      `RTree::nearest_n_neighbors`, with the case `n` = 0 answered by an
      empty result: the `n` objects nearest to `p` (all of them when fewer
      are stored), sorted by distance, none farther than a stored object
      left out.
    */
    method NearestNNeighbors(p: Point, n: nat) returns (result: seq<Rect>)
      requires Valid()
      ensures n == 0 ==> result == []
      ensures n > 0 ==> Neighbors.NearestN(result, Contents(), p, n)
      ensures |result| == if |Contents()| < n then |Contents()| else n
      ensures multiset(result) <= Contents()
    {
      result := [];
      if size > 0 && n > 0 {
        result := Neighbors.NearestNNeighbors(root, p, n, result, multiset{});
      }
      if n > 0 {
        Neighbors.NearestNCount(result, Contents(), p, n);
      }
    }

    /**
      `RTree::iter`: an iterator over the root that yields every stored
      object, once per stored copy.
    */
    function Iter(): (it: Iteration.DirIter)
      reads this
      requires Valid()
      ensures Iteration.Valid(it) && it.data == root
      ensures multiset(Iteration.Remaining(it)) == Contents()
    {
      Iteration.New(root)
    }
  }
}
