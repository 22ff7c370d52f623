/**
  The nearest-neighbour queries of a directory node: `nearest_neighbor`,
  `nearest_neighbors` and `nearest_n_neighbors`. The distance of a stored
  object to a point is its `MinDist2`. The first two prune children by the
  smallest min-max distance among the siblings; all three prune by the best
  distance found so far.
*/
module Neighbors {
  import opened Wrappers
  import opened Geometry
  import opened Nodes
  import opened Sorting

  // ---------------------------------------------------------------------
  // Pruning by min-max distance

  /**
    The loop computing `smallest_min_max`: the least min-max distance of
    the children's boxes (0 when there are none).
  */
  method SmallestMinMax(cs: seq<Node>, p: Point) returns (s: int)
    ensures |cs| > 0 ==> exists i :: 0 <= i < |cs| && s == MinMaxDist2(Mbr(cs[i]), p)
    ensures forall i :: 0 <= i < |cs| ==> s <= MinMaxDist2(Mbr(cs[i]), p)
  {
    s := 0;
    var first := true;
    ghost var at := 0;
    for i := 0 to |cs|
      invariant first <==> i == 0
      invariant i > 0 ==> at < i && s == MinMaxDist2(Mbr(cs[at]), p)
      invariant forall k :: 0 <= k < i ==> s <= MinMaxDist2(Mbr(cs[k]), p)
    {
      var newMin := MinMaxDist2(Mbr(cs[i]), p);
      if first {
        first := false;
        s, at := newMin, i;
      } else if newMin < s {
        s, at := newMin, i;
      }
    }
  }

  /** The children whose box is within `s` of `p`, in order. */
  method Candidates(cs: seq<Node>, p: Point, s: int) returns (cands: seq<Node>)
    ensures forall c :: c in cands <==> c in cs && MinDist2(Mbr(c), p) <= s
  {
    cands := [];
    for i := 0 to |cs|
      invariant forall c :: c in cands <==> c in cs[..i] && MinDist2(Mbr(c), p) <= s
    {
      assert cs[..i + 1] == cs[..i] + [cs[i]];
      if MinDist2(Mbr(cs[i]), p) <= s {
        cands := cands + [cs[i]];
      }
    }
    assert cs[..|cs|] == cs;
  }

  /** Some object below a valid child lies within the min-max distance of its box. */
  lemma MinMaxWitness(c: Node, depth: nat, p: Point) returns (e: Rect)
    requires ValidChild(c, depth)
    ensures e in Flatten(c) && MinDist2(e, p) <= MinMaxDist2(Mbr(c), p)
    ensures MinDist2(Mbr(c), p) <= MinMaxDist2(Mbr(c), p)
  {
    ValidChildIsValidNode(c, depth);
    MbrIsTight(c);
    e := WithinMinMax(Mbr(c), Flatten(c), p);
    MinDist2AtMostMinMax(Mbr(c), p);
  }

  /** No object below a valid child is nearer than the child's box. */
  lemma BoxIsNearer(c: Node, depth: nat, p: Point, e: Rect)
    requires ValidChild(c, depth) && e in Flatten(c)
    ensures MinDist2(Mbr(c), p) <= MinDist2(e, p)
  {
    ValidChildIsValidNode(c, depth);
    ObjectInsideMbr(c, e);
    MinDist2Monotone(Mbr(c), e, p);
  }

  // ---------------------------------------------------------------------
  // `nearest_neighbor`

  /** Every object in `objs` is at least `best` away from `p`, and, when `objs` is non-empty, there is a `best`. */
  ghost predicate NoneNearer(objs: seq<Rect>, p: Point, best: Option<int>) {
    forall e :: e in objs ==> best.Some? && MinDist2(e, p) >= best.value
  }

  /**
    The outcome of a nearest-neighbour search among `objs` below the
    distance `bound` (none: no bound): a nearest object strictly within the
    bound, or none when every object is at least `bound` away.
  */
  ghost predicate Nearest(objs: seq<Rect>, p: Point, bound: Option<int>, r: Option<Rect>) {
    && (r.Some? ==> r.value in objs && (bound.Some? ==> MinDist2(r.value, p) < bound.value))
    && NoneNearer(objs, p, if r.Some? then Some(MinDist2(r.value, p)) else bound)
  }

  /** The distance of a child's box to `p`: the key the children are sorted by. */
  function BoxDistance(p: Point): Node -> int {
    (c: Node) => MinDist2(Mbr(c), p)
  }

  /**
    `RTreeNode::nearest_neighbor`: a leaf is the answer when it is nearer
    than the bound; a directory node is searched.
  */
  method NodeNearest(c: Node, p: Point, bound: Option<int>, depth: nat) returns (nearest: Option<Rect>)
    requires ValidChild(c, depth)
    decreases c, 2
    ensures Nearest(Flatten(c), p, bound, nearest)
  {
    match c {
      case Directory(data) =>
        nearest := NearestNeighbor(data, p, bound);
      case Leaf(t) =>
        var distance := MinDist2(t, p);
        if bound.None? || distance < bound.value {
          nearest := Some(t);
        } else {
          nearest := None;
        }
    }
  }

  /**
    `nearest_neighbor`: keeps the children whose box is within the
    smallest min-max distance, visits them by increasing box distance while
    a box may hold something nearer than the best so far, and returns the
    nearest object found. The result is a nearest stored object within the
    bound, or none when no stored object is within it.
  */
  method NearestNeighbor(d: DirNode, p: Point, bound: Option<int>) returns (nearest: Option<Rect>)
    requires ValidDir(d)
    decreases d, 1
    ensures Nearest(FlattenAll(d.children), p, bound, nearest)
  {
    var s := SmallestMinMax(d.children, p);
    var cands := Candidates(d.children, p, s);
    var sorted := SortBy(cands, BoxDistance(p));
    assert forall c :: c in sorted <==> c in cands by {
      assert forall c :: c in sorted <==> c in multiset(sorted);
      assert forall c :: c in cands <==> c in multiset(cands);
    }
    var best;
    nearest, best := VisitByDistance(d, p, bound, sorted);
    PrunedByMinMax(d, p, s, cands, sorted, best);
  }

  /**
    The loop of `nearest_neighbor` over the candidates sorted by box
    distance: stops at the first box beyond the best distance so far. No
    object below any candidate is nearer than the returned best.
  */
  method VisitByDistance(d: DirNode, p: Point, bound: Option<int>, sorted: seq<Node>)
    returns (nearest: Option<Rect>, best: Option<int>)
    requires ValidDir(d)
    requires forall c :: c in sorted ==> c in d.children
    requires SortedBy(sorted, BoxDistance(p))
    decreases d, 0
    ensures best == if nearest.Some? then Some(MinDist2(nearest.value, p)) else bound
    ensures nearest.Some? ==> nearest.value in FlattenAll(d.children)
    ensures nearest.Some? && bound.Some? ==> MinDist2(nearest.value, p) < bound.value
    ensures forall k :: 0 <= k < |sorted| ==> NoneNearer(Flatten(sorted[k]), p, best)
  {
    assert forall c :: c in sorted ==> ValidChild(c, d.depth);
    nearest := None;
    best := bound;
    var j := 0;
    while j < |sorted|
      invariant j <= |sorted|
      invariant best == if nearest.Some? then Some(MinDist2(nearest.value, p)) else bound
      invariant nearest.Some? ==> nearest.value in FlattenAll(d.children)
      invariant nearest.Some? && bound.Some? ==> MinDist2(nearest.value, p) < bound.value
      invariant forall k :: 0 <= k < j ==> NoneNearer(Flatten(sorted[k]), p, best)
    {
      var child := sorted[j];
      assert child in sorted;
      ghost var i :| 0 <= i < |d.children| && d.children[i] == child;
      if best.Some? && MinDist2(Mbr(child), p) > best.value {
        BeyondBest(sorted, j, p, best.value, d.depth);
        break;
      }
      var r := NodeNearest(child, p, best, d.depth);
      if r.Some? {
        FlattenAllHas(d.children, i, r.value);
        Improved(sorted[..j], p, best, MinDist2(r.value, p));
        best := Some(MinDist2(r.value, p));
        nearest := r;
      }
      j := j + 1;
    }
  }

  /**
    Past the first child whose box is beyond the best distance, no child of
    the sorted candidates holds anything nearer.
  */
  lemma BeyondBest(sorted: seq<Node>, j: nat, p: Point, best: int, depth: nat)
    requires j < |sorted| && SortedBy(sorted, BoxDistance(p))
    requires forall c :: c in sorted ==> ValidChild(c, depth)
    requires MinDist2(Mbr(sorted[j]), p) > best
    ensures forall k :: j <= k < |sorted| ==> NoneNearer(Flatten(sorted[k]), p, Some(best))
  {
    forall k, e | j <= k < |sorted| && e in Flatten(sorted[k]) ensures MinDist2(e, p) >= best {
      assert BoxDistance(p)(sorted[j]) <= BoxDistance(p)(sorted[k]);
      BoxIsNearer(sorted[k], depth, p, e);
    }
  }

  /** A nearer best keeps every earlier child's objects at least as far. */
  lemma Improved(visited: seq<Node>, p: Point, best: Option<int>, better: int)
    requires forall k :: 0 <= k < |visited| ==> NoneNearer(Flatten(visited[k]), p, best)
    requires best.Some? ==> better < best.value
    ensures forall k :: 0 <= k < |visited| ==> NoneNearer(Flatten(visited[k]), p, Some(better))
  {
  }

  /**
    The children left out by the min-max pruning hold nothing nearer than
    the best found among the candidates.
  */
  lemma PrunedByMinMax(d: DirNode, p: Point, s: int, cands: seq<Node>, sorted: seq<Node>, best: Option<int>)
    requires ValidDir(d)
    requires |d.children| > 0 ==> exists i :: 0 <= i < |d.children| && s == MinMaxDist2(Mbr(d.children[i]), p)
    requires forall c :: c in cands <==> c in d.children && MinDist2(Mbr(c), p) <= s
    requires forall c :: c in sorted <==> c in cands
    requires forall k :: 0 <= k < |sorted| ==> NoneNearer(Flatten(sorted[k]), p, best)
    ensures NoneNearer(FlattenAll(d.children), p, best)
  {
    forall e | e in FlattenAll(d.children) ensures best.Some? && MinDist2(e, p) >= best.value {
      var i := FirstHolder(d.children, e);
      var c := d.children[i];
      assert ValidChild(c, d.depth);
      var k :| 0 <= k < |d.children| && s == MinMaxDist2(Mbr(d.children[k]), p);
      var nearest := d.children[k];
      assert ValidChild(nearest, d.depth);
      var w := MinMaxWitness(nearest, d.depth, p);
      assert nearest in sorted;
      var kk :| 0 <= kk < |sorted| && sorted[kk] == nearest;
      assert NoneNearer(Flatten(sorted[kk]), p, best);
      if c in cands {
        var m :| 0 <= m < |sorted| && sorted[m] == c;
        assert NoneNearer(Flatten(sorted[m]), p, best);
      } else {
        BoxIsNearer(c, d.depth, p, e);
      }
    }
  }

  // ---------------------------------------------------------------------
  // `nearest_neighbors`

  /**
    The outcome of collecting every nearest object among `objs`, entered
    with the best distance `bound` and the objects `before` already found at
    it, and left with the best distance `best` and the objects `after`:
    nothing in `objs` is nearer than `best`; `best` is either `bound` or a
    distance below it attained in `objs`; and `after` holds exactly the
    objects of `objs` at distance `best`, together with `before` when the
    best did not change.
  */
  ghost predicate Ties(objs: multiset<Rect>, p: Point, bound: Option<int>, before: multiset<Rect>,
                       best: Option<int>, after: multiset<Rect>)
  {
    && (forall e :: e in objs ==> best.Some? && MinDist2(e, p) >= best.value)
    && (best != bound ==>
          && best.Some?
          && (bound.Some? ==> best.value < bound.value)
          && exists e :: e in objs && MinDist2(e, p) == best.value)
    && (forall e :: after[e] == (if best == bound then before[e] else 0)
                                + (if best.Some? && MinDist2(e, p) == best.value then objs[e] else 0))
  }

  /** Collecting among `a` and then among `b` collects among both. */
  lemma TiesThen(a: multiset<Rect>, b: multiset<Rect>, p: Point, bound: Option<int>, before: multiset<Rect>,
                 best1: Option<int>, mid: multiset<Rect>, best2: Option<int>, after: multiset<Rect>)
    requires Ties(a, p, bound, before, best1, mid)
    requires Ties(b, p, best1, mid, best2, after)
    ensures Ties(a + b, p, bound, before, best2, after)
  {
    if best2 != best1 {
      assert best2 != bound;
      forall e ensures after[e] == (if best2.Some? && MinDist2(e, p) == best2.value then (a + b)[e] else 0) {
        if MinDist2(e, p) == best2.value {
          assert e !in a;
        }
      }
    }
  }

  /** Objects all farther than the best change nothing. */
  lemma TiesBeyond(a: multiset<Rect>, b: multiset<Rect>, p: Point, bound: Option<int>, before: multiset<Rect>,
                   best: Option<int>, after: multiset<Rect>)
    requires Ties(a, p, bound, before, best, after)
    requires forall e :: e in b ==> best.Some? && MinDist2(e, p) > best.value
    ensures Ties(a + b, p, bound, before, best, after)
  {
    forall e ensures after[e] == (if best == bound then before[e] else 0)
                                 + (if best.Some? && MinDist2(e, p) == best.value then (a + b)[e] else 0) {
      if best.Some? && MinDist2(e, p) == best.value {
        assert e !in b;
      }
    }
  }

  /**
    `RTreeNode::nearest_neighbors`: a directory node is searched; a leaf
    nearer than the best distance replaces what was found, one at the best
    distance joins it, one farther is ignored. Returns the new best
    distance, if any.
  */
  method NodeNearestAll(c: Node, p: Point, bound: Option<int>, result: seq<Rect>, depth: nat)
    returns (result': seq<Rect>, r: Option<int>)
    requires ValidChild(c, depth)
    requires bound.None? ==> multiset(result) == multiset{}
    decreases c, 2
    ensures Ties(multiset(Flatten(c)), p, bound, multiset(result), if r.Some? then r else bound, multiset(result'))
  {
    match c {
      case Directory(data) =>
        result', r := NearestNeighbors(data, p, bound, result);
      case Leaf(t) =>
        var distance := MinDist2(t, p);
        assert t in multiset(Flatten(c));
        match bound {
          case Some(nearest) =>
            if distance <= nearest {
              result' := if distance < nearest then [] else result;
              result' := result' + [t];
              r := Some(distance);
            } else {
              result', r := result, None;
            }
          case None =>
            result', r := result + [t], Some(distance);
        }
    }
  }

  /**
    `nearest_neighbors`: visits the children by increasing box distance,
    skipping those whose box is beyond the smallest min-max distance or the
    best distance so far, and gathers every object at the least distance.
    The outcome is `Ties` over all objects below the node.
  */
  method NearestNeighbors(d: DirNode, p: Point, bound: Option<int>, result: seq<Rect>)
    returns (result': seq<Rect>, best: Option<int>)
    requires ValidDir(d)
    requires bound.None? ==> multiset(result) == multiset{}
    decreases d, 1
    ensures Ties(multiset(FlattenAll(d.children)), p, bound, multiset(result), best, multiset(result'))
  {
    var s := SmallestMinMax(d.children, p);
    var sorted := SortBy(d.children, BoxDistance(p));
    assert forall c :: c in sorted ==> c in d.children && ValidChild(c, d.depth) by {
      assert forall c :: c in sorted ==> c in multiset(d.children);
    }
    ghost var seen, skipped;
    result', best, seen, skipped := GatherByDistance(d, p, bound, result, s, sorted, d.depth);
    GatheredAll(d, sorted, p, s, bound, multiset(result), best, multiset(result'), seen, skipped);
  }

  /** Every object below `c` is among `seen`. */
  ghost predicate Covered(c: Node, seen: multiset<Rect>) {
    forall e :: e in Flatten(c) ==> e in seen
  }

  /**
    The state of the loop of `nearest_neighbors` after the first `j` sorted
    children: the visited children's objects `seen` were collected; the
    skipped ones' objects `skipped` are all beyond the smallest min-max
    distance `s` or the best distance; and each child so far was visited or
    has its box beyond one of the two.
  */
  ghost predicate Gathered(sorted: seq<Node>, j: nat, p: Point, s: int, bound: Option<int>, before: multiset<Rect>,
                           best: Option<int>, after: multiset<Rect>, seen: multiset<Rect>, skipped: multiset<Rect>)
  {
    && j <= |sorted|
    && Ties(seen, p, bound, before, best, after)
    && (best.None? ==> after == multiset{})
    && seen + skipped == multiset(FlattenAll(sorted[..j]))
    && AllBeyond(skipped, p, s, best)
    && VisitedOrBeyond(sorted, j, p, s, best, seen)
  }

  /** Every object of `objs` is beyond `s` or beyond the best distance. */
  ghost predicate AllBeyond(objs: multiset<Rect>, p: Point, s: int, best: Option<int>) {
    forall e :: e in objs ==> MinDist2(e, p) > s || (best.Some? && MinDist2(e, p) > best.value)
  }

  /** Each of the first `j` children was visited or has its box beyond `s` or the best distance. */
  ghost predicate VisitedOrBeyond(sorted: seq<Node>, j: nat, p: Point, s: int, best: Option<int>, seen: multiset<Rect>)
    requires j <= |sorted|
  {
    forall k :: 0 <= k < j ==>
      || Covered(sorted[k], seen)
      || MinDist2(Mbr(sorted[k]), p) > s
      || (best.Some? && MinDist2(Mbr(sorted[k]), p) > best.value)
  }

  /** The loop of `nearest_neighbors` over the sorted children. */
  method GatherByDistance(ghost d: DirNode, p: Point, bound: Option<int>, result: seq<Rect>, s: int,
                          sorted: seq<Node>, depth: nat)
    returns (result': seq<Rect>, best: Option<int>, ghost seen: multiset<Rect>, ghost skipped: multiset<Rect>)
    requires forall c :: c in sorted ==> c in d.children && ValidChild(c, depth)
    requires bound.None? ==> multiset(result) == multiset{}
    decreases d, 0
    ensures Gathered(sorted, |sorted|, p, s, bound, multiset(result), best, multiset(result'), seen, skipped)
  {
    result', best := result, bound;
    seen, skipped := multiset{}, multiset{};
    assert sorted[..0] == [];
    for j := 0 to |sorted|
      invariant Gathered(sorted, j, p, s, bound, multiset(result), best, multiset(result'), seen, skipped)
    {
      var child := sorted[j];
      assert child in d.children;
      var minDist := MinDist2(Mbr(child), p);
      if minDist > s || (best.Some? && minDist > best.value) {
        GatherSkip(sorted, j, p, s, bound, multiset(result), best, multiset(result'), seen, skipped, depth);
        skipped := skipped + multiset(Flatten(child));
      } else {
        ghost var mid := multiset(result');
        var r;
        result', r := NodeNearestAll(child, p, best, result', depth);
        GatherVisit(sorted, j, p, s, bound, multiset(result), best, mid, seen, skipped, r, multiset(result'));
        seen := seen + multiset(Flatten(child));
        if r.Some? {
          best := r;
        }
      }
    }
  }

  /** A skipped child keeps the loop state. */
  lemma GatherSkip(sorted: seq<Node>, j: nat, p: Point, s: int, bound: Option<int>, before: multiset<Rect>,
                   best: Option<int>, after: multiset<Rect>, seen: multiset<Rect>, skipped: multiset<Rect>, depth: nat)
    requires j < |sorted| && Gathered(sorted, j, p, s, bound, before, best, after, seen, skipped)
    requires forall c :: c in sorted ==> ValidChild(c, depth)
    requires MinDist2(Mbr(sorted[j]), p) > s || (best.Some? && MinDist2(Mbr(sorted[j]), p) > best.value)
    ensures Gathered(sorted, j + 1, p, s, bound, before, best, after, seen, skipped + multiset(Flatten(sorted[j])))
  {
    FlattenAllPrefix(sorted, j);
    forall e | e in Flatten(sorted[j]) ensures MinDist2(Mbr(sorted[j]), p) <= MinDist2(e, p) {
      BoxIsNearer(sorted[j], depth, p, e);
    }
  }

  /** A visited child keeps the loop state, with the best it returned. */
  lemma GatherVisit(sorted: seq<Node>, j: nat, p: Point, s: int, bound: Option<int>, before: multiset<Rect>,
                    best: Option<int>, mid: multiset<Rect>, seen: multiset<Rect>, skipped: multiset<Rect>,
                    r: Option<int>, after: multiset<Rect>)
    requires j < |sorted| && Gathered(sorted, j, p, s, bound, before, best, mid, seen, skipped)
    requires Ties(multiset(Flatten(sorted[j])), p, best, mid, if r.Some? then r else best, after)
    ensures Gathered(sorted, j + 1, p, s, bound, before, if r.Some? then r else best, after,
                     seen + multiset(Flatten(sorted[j])), skipped)
  {
    var best' := if r.Some? then r else best;
    var seen' := seen + multiset(Flatten(sorted[j]));
    FlattenAllPrefix(sorted, j);
    TiesThen(seen, multiset(Flatten(sorted[j])), p, bound, before, best, mid, best', after);
    Lowered(sorted, j, p, s, best, best', seen, seen', skipped);
    assert Covered(sorted[j], seen');
  }

  /** A lower best distance and more objects seen keep the skipped children beyond. */
  lemma Lowered(sorted: seq<Node>, j: nat, p: Point, s: int, best: Option<int>, best': Option<int>,
                seen: multiset<Rect>, seen': multiset<Rect>, skipped: multiset<Rect>)
    requires j <= |sorted|
    requires AllBeyond(skipped, p, s, best) && VisitedOrBeyond(sorted, j, p, s, best, seen)
    requires seen <= seen'
    requires best' != best ==> best'.Some? && (best.Some? ==> best'.value < best.value)
    ensures AllBeyond(skipped, p, s, best') && VisitedOrBeyond(sorted, j, p, s, best', seen')
  {
  }

  /**
    After the loop, the best distance is within the smallest min-max
    distance, so every skipped object is beyond it, and the outcome holds
    for all objects below the node.
  */
  lemma GatheredAll(d: DirNode, sorted: seq<Node>, p: Point, s: int, bound: Option<int>, before: multiset<Rect>,
                    best: Option<int>, after: multiset<Rect>, seen: multiset<Rect>, skipped: multiset<Rect>)
    requires ValidDir(d)
    requires multiset(sorted) == multiset(d.children)
    requires |d.children| > 0 ==> exists i :: 0 <= i < |d.children| && s == MinMaxDist2(Mbr(d.children[i]), p)
    requires Gathered(sorted, |sorted|, p, s, bound, before, best, after, seen, skipped)
    ensures Ties(multiset(FlattenAll(d.children)), p, bound, before, best, after)
  {
    assert sorted[..|sorted|] == sorted;
    FlattenAllPermutation(sorted, d.children);
    if |d.children| == 0 {
      assert |sorted| == |multiset(sorted)| == 0;
      assert seen + skipped == multiset{};
    } else {
      BestWithinMinMax(d, sorted, p, s, best, seen);
    }
    TiesBeyond(seen, skipped, p, bound, before, best, after);
  }

  /**
    The child attaining the smallest min-max distance was visited or has its
    box beyond the best distance; either way the best is within `s`.
  */
  lemma BestWithinMinMax(d: DirNode, sorted: seq<Node>, p: Point, s: int, best: Option<int>, seen: multiset<Rect>)
    requires ValidDir(d)
    requires multiset(sorted) == multiset(d.children)
    requires exists i :: 0 <= i < |d.children| && s == MinMaxDist2(Mbr(d.children[i]), p)
    requires VisitedOrBeyond(sorted, |sorted|, p, s, best, seen)
    requires forall e :: e in seen ==> best.Some? && MinDist2(e, p) >= best.value
    ensures best.Some? && best.value <= s
  {
    var i :| 0 <= i < |d.children| && s == MinMaxDist2(Mbr(d.children[i]), p);
    var c := d.children[i];
    assert ValidChild(c, d.depth);
    var w := MinMaxWitness(c, d.depth, p);
    assert c in multiset(sorted);
    var k :| 0 <= k < |sorted| && sorted[k] == c;
  }

  // ---------------------------------------------------------------------
  // `nearest_n_neighbors`

  /** The distance of an object to `p`: the key the result is ordered by. */
  function Distance(p: Point): Rect -> int {
    (e: Rect) => MinDist2(e, p)
  }

  /**
    `result` holds up to `n` nearest objects of `seen`, by increasing
    distance: all of `seen` when it has fewer than `n` objects, and otherwise
    `n` of them, none farther than an object left out.
  */
  ghost predicate NearestN(result: seq<Rect>, seen: multiset<Rect>, p: Point, n: nat) {
    && SortedBy(result, Distance(p))
    && |result| <= n
    && multiset(result) <= seen
    && (|result| < n ==> multiset(result) == seen)
    && LeftOutFarther(result, seen, p)
  }

  /** No object of `seen` left out of `result` is nearer than the last of `result`. */
  ghost predicate LeftOutFarther(result: seq<Rect>, seen: multiset<Rect>, p: Point) {
    forall e :: multiset(result)[e] < seen[e] ==>
      |result| > 0 && MinDist2(e, p) >= MinDist2(result[|result| - 1], p)
  }

  /** The result has `n` objects, or all of `seen` when there are fewer. */
  lemma NearestNCount(result: seq<Rect>, seen: multiset<Rect>, p: Point, n: nat)
    requires NearestN(result, seen, p, n)
    ensures |result| == if |seen| < n then |seen| else n
  {
    assert |multiset(result)| == |result|;
    if |result| == n {
      assert seen == multiset(result) + (seen - multiset(result));
    }
  }

  /**
    The pruning test of `nearest_n_neighbors` as written: once the result
    holds `n` objects, a child is skipped when its box is no nearer than the
    last of them. Reading the last object fails (none) when `n` is 0, since
    the result is then both full and empty.
  */
  function PruneAsWritten(result: seq<Rect>, n: nat, minDist: int, p: Point): (skip: Option<bool>)
    ensures skip.None? <==> |result| == n == 0
    ensures skip == Some(true) ==> |result| == n > 0
  {
    if |result| != n then Some(false)
    else if |result| == 0 then None
    else Some(minDist >= MinDist2(result[|result| - 1], p))
  }

  /**
    With `n` = 0 the first child of a non-empty tree already fails the
    pruning test: `nearest_n_neighbors(p, 0)` cannot return.
  */
  lemma ZeroNeighborsFails(d: DirNode, p: Point)
    requires |d.children| > 0
    ensures PruneAsWritten([], 0, MinDist2(Mbr(d.children[0]), p), p).None?
  {
  }

  /**
    The leaf branch of `nearest_n_neighbors`: an object nearer than the last
    of a full result replaces it; with room left it is inserted; in both
    cases at the position a binary search by distance finds.
  */
  method OfferLeaf(result: seq<Rect>, b: Rect, ghost seen: multiset<Rect>, p: Point, n: nat)
    returns (result': seq<Rect>)
    requires n > 0 && NearestN(result, seen, p, n)
    ensures NearestN(result', seen + multiset{b}, p, n)
  {
    var distance := MinDist2(b, p);
    if |result| != n || distance < MinDist2(result[|result| - 1], p) {
      if |result| == n {
        var kept := result[..|result| - 1];
        var index := InsertionPoint(kept, Distance(p), distance);
        result' := kept[..index] + [b] + kept[index..];
        ReplacedLast(result, kept, index, b, seen, p, n);
      } else {
        var index := InsertionPoint(result, Distance(p), distance);
        result' := result[..index] + [b] + result[index..];
        InsertedWithRoom(result, index, b, seen, p, n);
      }
    } else {
      result' := result;
    }
  }

  /** Inserting into a result with room left keeps `NearestN`. */
  lemma InsertedWithRoom(result: seq<Rect>, index: nat, b: Rect, seen: multiset<Rect>, p: Point, n: nat)
    requires NearestN(result, seen, p, n) && |result| < n && index <= |result|
    requires forall i :: 0 <= i < index ==> MinDist2(result[i], p) <= MinDist2(b, p)
    requires forall i :: index <= i < |result| ==> MinDist2(b, p) <= MinDist2(result[i], p)
    ensures NearestN(result[..index] + [b] + result[index..], seen + multiset{b}, p, n)
  {
    InsertAtPointMultiset(result, index, b);
    InsertAtPointSorted(result, Distance(p), index, b);
  }

  /**
    Dropping the last of a full result and inserting a nearer object keeps
    `NearestN`: the dropped object is no nearer than the new last.
  */
  lemma ReplacedLast(result: seq<Rect>, kept: seq<Rect>, index: nat, b: Rect, seen: multiset<Rect>, p: Point, n: nat)
    requires NearestN(result, seen, p, n) && |result| == n > 0 && kept == result[..|result| - 1]
    requires MinDist2(b, p) < MinDist2(result[|result| - 1], p)
    requires index <= |kept|
    requires forall i :: 0 <= i < index ==> MinDist2(kept[i], p) <= MinDist2(b, p)
    requires forall i :: index <= i < |kept| ==> MinDist2(b, p) <= MinDist2(kept[i], p)
    ensures NearestN(kept[..index] + [b] + kept[index..], seen + multiset{b}, p, n)
  {
    InsertAtPointSorted(kept, Distance(p), index, b);
    InsertAtPointMultiset(kept, index, b);
    DroppedLast(result, kept, p);
    LeftOutAfterReplace(result, kept, kept[..index] + [b] + kept[index..], b, seen, p);
  }

  /** The last of a sorted result is no nearer than any object kept before it. */
  lemma DroppedLast(result: seq<Rect>, kept: seq<Rect>, p: Point)
    requires SortedBy(result, Distance(p)) && |result| > 0 && kept == result[..|result| - 1]
    ensures multiset(result) == multiset(kept) + multiset{result[|result| - 1]}
    ensures forall x :: x in kept ==> MinDist2(x, p) <= MinDist2(result[|result| - 1], p)
  {
    assert result == kept + [result[|result| - 1]];
    forall x | x in kept ensures MinDist2(x, p) <= MinDist2(result[|result| - 1], p) {
      var i :| 0 <= i < |kept| && kept[i] == x;
      assert Distance(p)(result[i]) <= Distance(p)(result[|result| - 1]);
    }
  }

  /** What `ReplacedLast` leaves out is the old leftovers and the dropped last. */
  lemma LeftOutAfterReplace(result: seq<Rect>, kept: seq<Rect>, r: seq<Rect>, b: Rect, seen: multiset<Rect>, p: Point)
    requires LeftOutFarther(result, seen, p) && |result| > 0
    requires multiset(result) == multiset(kept) + multiset{result[|result| - 1]}
    requires forall x :: x in kept ==> MinDist2(x, p) <= MinDist2(result[|result| - 1], p)
    requires MinDist2(b, p) < MinDist2(result[|result| - 1], p)
    requires multiset(r) == multiset(kept) + multiset{b} && |r| > 0
    ensures LeftOutFarther(r, seen + multiset{b}, p)
  {
    assert r[|r| - 1] in multiset(r);
  }

  /** A child whose box is no nearer than the last of a full result changes nothing. */
  lemma PrunedChild(result: seq<Rect>, seen: multiset<Rect>, c: Node, depth: nat, p: Point, n: nat)
    requires n > 0 && NearestN(result, seen, p, n) && ValidChild(c, depth)
    requires |result| == n && MinDist2(Mbr(c), p) >= MinDist2(result[|result| - 1], p)
    ensures NearestN(result, seen + multiset(Flatten(c)), p, n)
  {
    forall e | e in Flatten(c) ensures MinDist2(Mbr(c), p) <= MinDist2(e, p) {
      BoxIsNearer(c, depth, p, e);
    }
  }

  /**
    The loop body of `nearest_n_neighbors` for one child: skipped by the
    pruning test, searched when a directory node, offered when a leaf.
  */
  method NodeNearestN(c: Node, p: Point, n: nat, result: seq<Rect>, ghost seen: multiset<Rect>, depth: nat)
    returns (result': seq<Rect>)
    requires n > 0 && NearestN(result, seen, p, n) && ValidChild(c, depth)
    decreases c, 2
    ensures NearestN(result', seen + multiset(Flatten(c)), p, n)
  {
    var skip := PruneAsWritten(result, n, MinDist2(Mbr(c), p), p);
    match skip {
      case None =>
        assert false;
      case Some(true) =>
        PrunedChild(result, seen, c, depth, p, n);
        result' := result;
      case Some(false) =>
        match c {
          case Directory(data) =>
            result' := NearestNNeighbors(data, p, n, result, seen);
          case Leaf(b) =>
            result' := OfferLeaf(result, b, seen, p, n);
        }
    }
  }

  /**
    `nearest_n_neighbors`: goes through the children in order, keeping the
    `n` nearest objects met so far, sorted by distance. Requires `n` > 0,
    without which the pruning test fails (see `ZeroNeighborsFails`).
  */
  method NearestNNeighbors(d: DirNode, p: Point, n: nat, result: seq<Rect>, ghost seen: multiset<Rect>)
    returns (result': seq<Rect>)
    requires ValidDir(d) && n > 0 && NearestN(result, seen, p, n)
    decreases d, 1
    ensures NearestN(result', seen + multiset(FlattenAll(d.children)), p, n)
  {
    result' := result;
    ghost var met := seen;
    assert d.children[..0] == [];
    for i := 0 to |d.children|
      invariant met == seen + multiset(FlattenAll(d.children[..i]))
      invariant NearestN(result', met, p, n)
    {
      FlattenAllPrefix(d.children, i);
      assert ValidChild(d.children[i], d.depth);
      result' := NodeNearestN(d.children[i], p, n, result', met, d.depth);
      met := met + multiset(Flatten(d.children[i]));
    }
    assert d.children[..|d.children|] == d.children;
  }

  // ---------------------------------------------------------------------
  // The queries from the root

  /** The least distance from `p` of an object of the non-empty `objs`. */
  ghost function LeastDistance(objs: multiset<Rect>, p: Point): (m: int)
    requires objs != multiset{}
    ensures exists e :: e in objs && MinDist2(e, p) == m
    ensures forall e :: e in objs ==> m <= MinDist2(e, p)
    decreases |objs|
  {
    var e :| e in objs;
    var rest := objs - multiset{e};
    assert objs == rest + multiset{e};
    if rest == multiset{} then
      MinDist2(e, p)
    else
      var m := LeastDistance(rest, p);
      if MinDist2(e, p) < m then MinDist2(e, p) else m
  }

  /** Searching the root without a bound finds a nearest stored object, if any. */
  lemma NearestAtTop(objs: seq<Rect>, p: Point, r: Option<Rect>)
    requires Nearest(objs, p, None, r)
    ensures r.Some? <==> |objs| > 0
    ensures r.Some? ==> r.value in objs && MinDist2(r.value, p) == LeastDistance(multiset(objs), p)
  {
    if |objs| > 0 {
      assert objs[0] in objs;
    }
    if r.Some? {
      var m := LeastDistance(multiset(objs), p);
      var e :| e in multiset(objs) && MinDist2(e, p) == m;
    }
  }

  /**
    Collecting from the root without a bound and with an empty result
    gathers every stored object at the least distance, once per stored copy.
  */
  lemma TiesAtTop(objs: multiset<Rect>, p: Point, best: Option<int>, after: multiset<Rect>)
    requires Ties(objs, p, None, multiset{}, best, after)
    ensures forall e :: after[e] == if objs != multiset{} && MinDist2(e, p) == LeastDistance(objs, p) then objs[e] else 0
  {
    if objs != multiset{} {
      var m := LeastDistance(objs, p);
      var e :| e in objs && MinDist2(e, p) == m;
      assert best.Some?;
      var w :| w in objs && MinDist2(w, p) == best.value;
      assert best.value == m;
    }
  }
}
