/**
  Insertion into a directory node (`DirectoryNodeData::insert` and the
  operations it relies on): the R*-tree's subtree choice, forced
  reinsertion once per level and insertion, and the split of an
  overflowing node.
*/
module Insertion {
  import opened Wrappers
  import opened Geometry
  import opened Options
  import opened Nodes
  import opened Sorting

  /**
    What a node insertion hands back to its caller. `Abort` stands for the
    index-out-of-bounds panic of `did_reinsert` on a level the state has no
    entry for.
  */
  datatype InsertionResult = Complete | Split(node: Node) | Reinsert(nodes: seq<Node>) | Abort

  /** `InsertionState`: which levels already made their forced reinsertion. */
  class InsertionState {
    var reinsertions: seq<bool>

    /** `InsertionState::new`: `maxDepth` levels, none reinserted yet. */
    constructor (maxDepth: nat)
      ensures |reinsertions| == maxDepth
      ensures forall k :: 0 <= k < maxDepth ==> !reinsertions[k]
    {
      reinsertions := seq(maxDepth, k => false);
    }

    /**
      `did_reinsert`: whether level `depth` already made its forced
      reinsertion, that is, exactly when marking it again would use up no
      further reinsertion.
    */
    function DidReinsert(depth: nat): (b: bool)
      reads this
      requires depth < |reinsertions|
      ensures b <==> Unmarked(reinsertions[depth := true]) == Unmarked(reinsertions)
    {
      if reinsertions[depth] then
        assert reinsertions[depth := true] == reinsertions;
        true
      else
        MarkingUsesUpOne(reinsertions, depth);
        false
    }

    /** `mark_reinsertion`: records the reinsertion of level `depth`. */
    method MarkReinsertion(depth: nat)
      requires depth < |reinsertions|
      modifies this
      ensures reinsertions == old(reinsertions)[depth := true]
    {
      reinsertions := reinsertions[depth := true];
    }
  }

  /** The number of levels that may still make a forced reinsertion. */
  function Unmarked(s: seq<bool>): nat {
    if s == [] then 0 else (if s[0] then 0 else 1) + Unmarked(s[1..])
  }

  /** Marking a level that was not marked yet uses up one reinsertion. */
  lemma {:induction false} MarkingUsesUpOne(s: seq<bool>, k: nat)
    requires k < |s| && !s[k]
    ensures Unmarked(s[k := true]) + 1 == Unmarked(s)
    decreases k
  {
    if k > 0 {
      assert s[k := true][1..] == s[1..][k - 1 := true];
      MarkingUsesUpOne(s[1..], k - 1);
    }
  }

  // ---------------------------------------------------------------------
  // Bounding boxes of directory nodes

  /**
    The cached box after adding the nodes `cs` to a node whose box was
    `box`: the old box grown by theirs, or, without an old box, the box of
    `cs` alone.
  */
  function ExtendBox(box: Option<Rect>, cs: seq<Node>): (r: Option<Rect>)
    ensures r.None? <==> box.None? && |cs| == 0
  {
    if box.Some? then Some(FoldBoxes(box.value, cs, 0, |cs|)) else ChildrenBox(cs)
  }

  /**
    Extending the box of a collection `s` (no box: `s` is empty) by a node
    whose box is tight around `g` gives the box of both.
  */
  lemma ExtendBoxByOne(box: Option<Rect>, s: seq<Rect>, t: Node, g: seq<Rect>)
    requires box.None? ==> s == []
    requires box.Some? ==> Tight(box.value, s)
    requires Tight(Mbr(t), g)
    ensures ExtendBox(box, [t]).Some?
    ensures Tight(ExtendBox(box, [t]).value, s + g)
  {
    if box.None? {
      assert FoldBoxes(Mbr(t), [t], 1, 1) == Mbr(t);
      assert s + g == g;
    } else {
      assert FoldBoxes(box.value, [t], 0, 0) == box.value;
      TightAddRect(box.value, s, Mbr(t), g);
    }
  }

  /** The `add_rect` loop over `cs[lo..hi]`, starting from `start`. */
  method GrowBox(start: Rect, cs: seq<Node>, lo: nat, hi: nat) returns (box: Rect)
    requires lo <= hi <= |cs|
    ensures box == FoldBoxes(start, cs, lo, hi)
  {
    box := start;
    for i := lo to hi
      invariant box == FoldBoxes(start, cs, lo, i)
    {
      box := AddRect(box, Mbr(cs[i]));
    }
  }

  /** `update_mbr`: recomputes the cached box from the children. */
  method UpdateMbr(d: DirNode) returns (d': DirNode)
    ensures d' == d.(boundingBox := ChildrenBox(d.children))
  {
    if |d.children| == 0 {
      d' := d.(boundingBox := None);
    } else {
      var box := GrowBox(Mbr(d.children[0]), d.children, 1, |d.children|);
      d' := d.(boundingBox := Some(box));
    }
  }

  /**
    `update_mbr_with_element`: grows the cached box to cover the box of the
    node `t` about to be inserted (the source passes `t`'s box).
  */
  function UpdateMbrWithElement(d: DirNode, t: Node): (d': DirNode)
    ensures d' == d.(boundingBox := ExtendBox(d.boundingBox, [t]))
  {
    if d.boundingBox.Some? then
      assert FoldBoxes(d.boundingBox.value, [t], 0, 0) == d.boundingBox.value;
      d.(boundingBox := Some(AddRect(d.boundingBox.value, Mbr(t))))
    else
      assert FoldBoxes(Mbr(t), [t], 1, 1) == Mbr(t);
      d.(boundingBox := Some(Mbr(t)))
  }

  /** `add_children`: appends the children and grows the box to cover them. */
  method AddChildren(d: DirNode, cs: seq<Node>) returns (d': DirNode)
    ensures d' == d.(children := d.children + cs, boundingBox := ExtendBox(d.boundingBox, cs))
  {
    if d.boundingBox.Some? {
      var bb := GrowBox(d.boundingBox.value, cs, 0, |cs|);
      return d.(children := d.children + cs, boundingBox := Some(bb));
    }
    var box: Option<Rect> := None;
    if |cs| > 0 {
      var bb := GrowBox(Mbr(cs[0]), cs, 1, |cs|);
      box := Some(bb);
    }
    d' := d.(children := d.children + cs, boundingBox := box);
  }

  // ---------------------------------------------------------------------
  // Choosing the subtree

  /** Lexicographic order of the triples `choose_subtree` compares. */
  predicate Less3(a: (int, int, int), b: (int, int, int)) {
    a.0 < b.0 || (a.0 == b.0 && (a.1 < b.1 || (a.1 == b.1 && a.2 < b.2)))
  }

  /** The overlap of `m` with the boxes of `cs[..n]` other than `cs[skip]`. */
  function OverlapWithOthers(m: Rect, cs: seq<Node>, skip: nat, n: nat): int
    requires n <= |cs|
  {
    if n == 0 then 0
    else OverlapWithOthers(m, cs, skip, n - 1) + (if n - 1 == skip then 0 else OverlapArea(m, Mbr(cs[n - 1])))
  }

  /**
    The cost of growing child `i` to hold `r`: the increase of its overlap
    with its siblings (counted only when the children hold objects), the
    increase of its area, and its grown area.
  */
  function EnlargementCost(d: DirNode, i: nat, r: Rect): (int, int, int)
    requires i < |d.children|
  {
    var cs := d.children;
    var allLeaves := d.depth <= 2;
    var m := Mbr(cs[i]);
    var grown := AddRect(m, r);
    var overlapIncrease :=
      if allLeaves then OverlapWithOthers(grown, cs, i, |cs|) - OverlapWithOthers(m, cs, i, |cs|) else 0;
    (overlapIncrease, Area(grown) - Area(m), Area(grown))
  }

  /**
    `choose_subtree`: among the children whose box contains the new node's
    box, the first one of least area; when there is none, the first child of
    least enlargement cost. The source asserts `depth >= 2`.
  */
  method ChooseSubtree(d: DirNode, t: Node) returns (index: nat)
    requires d.depth >= 2 && |d.children| > 0
    ensures index < |d.children|
    ensures (exists i :: 0 <= i < |d.children| && ContainsRect(Mbr(d.children[i]), Mbr(t))) ==>
      && ContainsRect(Mbr(d.children[index]), Mbr(t))
      && forall i :: 0 <= i < |d.children| && ContainsRect(Mbr(d.children[i]), Mbr(t)) ==>
           Area(Mbr(d.children[index])) <= Area(Mbr(d.children[i]))
    ensures (forall i :: 0 <= i < |d.children| ==> !ContainsRect(Mbr(d.children[i]), Mbr(t))) ==>
      forall i :: 0 <= i < |d.children| ==> !Less3(EnlargementCost(d, i, Mbr(t)), EnlargementCost(d, index, Mbr(t)))
  {
    var inclusionCount;
    inclusionCount, index := LeastAreaContaining(d.children, Mbr(t));
    if inclusionCount == 0 {
      index := LeastEnlargement(d, Mbr(t));
    }
  }

  /**
    The first loop of `choose_subtree`: counts the children whose box
    contains `r` and finds the first of least area among them.
  */
  method LeastAreaContaining(cs: seq<Node>, r: Rect) returns (inclusionCount: nat, index: nat)
    requires |cs| > 0
    ensures index < |cs|
    ensures inclusionCount == 0 <==> forall i :: 0 <= i < |cs| ==> !ContainsRect(Mbr(cs[i]), r)
    ensures inclusionCount > 0 ==> ContainsRect(Mbr(cs[index]), r)
    ensures inclusionCount > 0 ==>
      forall i :: 0 <= i < |cs| && ContainsRect(Mbr(cs[i]), r) ==> Area(Mbr(cs[index])) <= Area(Mbr(cs[i]))
  {
    var minArea := 0;
    var first := true;
    inclusionCount, index := 0, 0;
    for i := 0 to |cs|
      invariant index < |cs|
      invariant first <==> inclusionCount == 0
      invariant first <==> forall j :: 0 <= j < i ==> !ContainsRect(Mbr(cs[j]), r)
      invariant !first ==> ContainsRect(Mbr(cs[index]), r) && minArea == Area(Mbr(cs[index]))
      invariant !first ==> forall j :: 0 <= j < i && ContainsRect(Mbr(cs[j]), r) ==> minArea <= Area(Mbr(cs[j]))
    {
      var mbr := Mbr(cs[i]);
      if ContainsRect(mbr, r) {
        inclusionCount := inclusionCount + 1;
        var area := Area(mbr);
        if area < minArea || first {
          minArea := area;
          index := i;
          first := false;
        }
      }
    }
  }

  /** The second loop of `choose_subtree`: the first child of least enlargement cost. */
  method LeastEnlargement(d: DirNode, r: Rect) returns (index: nat)
    requires |d.children| > 0
    ensures index < |d.children|
    ensures forall i :: 0 <= i < |d.children| ==> !Less3(EnlargementCost(d, i, r), EnlargementCost(d, index, r))
  {
    var min := (0, 0, 0);
    index := 0;
    for i := 0 to |d.children|
      invariant index < |d.children|
      invariant i > 0 ==> min == EnlargementCost(d, index, r)
      invariant forall j :: 0 <= j < i ==> !Less3(EnlargementCost(d, j, r), min)
    {
      var newMin := ScoreChild(d, i, r);
      if Less3(newMin, min) || i == 0 {
        min := newMin;
        index := i;
      }
    }
  }

  /** The body of the second loop of `choose_subtree` for child `i`. */
  method ScoreChild(d: DirNode, i: nat, r: Rect) returns (cost: (int, int, int))
    requires i < |d.children|
    ensures cost == EnlargementCost(d, i, r)
  {
    var cs := d.children;
    var mbr := Mbr(cs[i]);
    var newMbr := AddRect(mbr, r);
    var overlapIncrease := 0;
    if d.depth <= 2 {
      var overlap, newOverlap := SiblingOverlaps(mbr, newMbr, cs, i);
      overlapIncrease := newOverlap - overlap;
    }
    var area := Area(newMbr);
    var areaIncrease := area - Area(mbr);
    cost := (overlapIncrease, areaIncrease, area);
  }

  /**
    The inner loop of `choose_subtree`: the overlap of child `i`'s box
    `mbr`, and of its grown box `newMbr`, with the boxes of its siblings.
  */
  method SiblingOverlaps(mbr: Rect, newMbr: Rect, cs: seq<Node>, i: nat) returns (overlap: int, newOverlap: int)
    ensures overlap == OverlapWithOthers(mbr, cs, i, |cs|)
    ensures newOverlap == OverlapWithOthers(newMbr, cs, i, |cs|)
  {
    overlap, newOverlap := 0, 0;
    for j := 0 to |cs|
      invariant overlap == OverlapWithOthers(mbr, cs, i, j)
      invariant newOverlap == OverlapWithOthers(newMbr, cs, i, j)
    {
      if j != i {
        var childMbr := Mbr(cs[j]);
        overlap := overlap + OverlapArea(mbr, childMbr);
        newOverlap := newOverlap + OverlapArea(newMbr, childMbr);
      }
    }
  }

  // ---------------------------------------------------------------------
  // Splitting

  /** Lexicographic order of the pairs `split` compares. */
  predicate Less2(a: (int, int), b: (int, int)) {
    a.0 < b.0 || (a.0 == b.0 && a.1 < b.1)
  }

  /**
    The boxes `split` and `get_split_axis` compute for the two groups when
    cutting before `k`: the first seeded with `cs[k - 1]` and grown by
    `cs[..k]`, the second seeded with `cs[k]` and grown by `cs[k..]`.
  */
  function LowerGroupBox(cs: seq<Node>, k: nat): Rect
    requires 0 < k < |cs|
  {
    FoldBoxes(Mbr(cs[k - 1]), cs, 0, k)
  }

  function UpperGroupBox(cs: seq<Node>, k: nat): Rect
    requires 0 < k < |cs|
  {
    FoldBoxes(Mbr(cs[k]), cs, k, |cs|)
  }

  /** The cost of cutting `cs` before position `k`: overlap, then total area. */
  function SplitCost(cs: seq<Node>, k: nat): (int, int)
    requires 0 < k < |cs|
  {
    var first := LowerGroupBox(cs, k);
    var second := UpperGroupBox(cs, k);
    (OverlapArea(first, second), Area(first) + Area(second))
  }

  /** No box in `left` starts above a box in `right` along `axis`. */
  ghost predicate SeparatedOnAxis(left: seq<Node>, right: seq<Node>, axis: nat)
    requires axis < Dim
  {
    forall a, b :: a in left && b in right ==> Mbr(a).lower[axis] <= Mbr(b).lower[axis]
  }

  /** The key `split` sorts by: the lower coordinate along `axis`. */
  function LowerOnAxis(axis: nat): Node -> int
    requires axis < Dim
  {
    c => Mbr(c).lower[axis]
  }

  /**
    `get_split_axis`: sorts the children along each axis and scores every
    admissible cut by its margin. The comparison is reproduced as written:
    every cut along axis 0 overwrites the best score, so the axis-0 score is
    that of its last cut.
  */
  method GetSplitAxis(cs: seq<Node>, opts: RTreeOptions) returns (axis: nat)
    requires Valid(opts) && |cs| > opts.maxSize
    ensures axis < Dim
  {
    var bestGoodness := 0;
    axis := 0;
    for a := 0 to Dim
      invariant axis < Dim
    {
      var sorted := SortBy(cs, LowerOnAxis(a));
      assert |sorted| == |multiset(sorted)| == |cs|;
      var k := opts.minSize;
      while k <= |sorted| - opts.minSize
        invariant axis < Dim
        decreases |sorted| - k
      {
        var firstMbr := GrowBox(Mbr(sorted[k - 1]), sorted, 0, k);
        var secondMbr := GrowBox(Mbr(sorted[k]), sorted, k, |sorted|);
        var marginValue := HalfMargin(firstMbr) + HalfMargin(secondMbr);
        if bestGoodness > marginValue || a == 0 {
          axis := a;
          bestGoodness := marginValue;
        }
        k := k + 1;
      }
    }
  }

  /**
    The selection loop of `split`: scanning the positions `lo..hi` in
    order and keeping a position only when its score is strictly smaller
    than the best so far gives the first position of least score; over an
    empty range the result is `lo`.
  */
  method FirstLeast(lo: nat, hi: int, score: nat -> (int, int)) returns (index: nat)
    ensures index == lo || lo <= index <= hi
    ensures lo <= hi ==> lo <= index <= hi
    ensures forall k: nat :: lo <= k <= hi ==> !Less2(score(k), score(index))
    ensures forall k: nat :: lo <= k < index ==> Less2(score(index), score(k))
  {
    var best := (0, 0);
    index := lo;
    var k := lo;
    while k <= hi
      invariant lo <= k && (k <= hi + 1 || k == lo)
      invariant index == lo || lo <= index < k
      invariant k > lo ==> index < k && best == score(index)
      invariant forall j: nat :: lo <= j < k ==> !Less2(score(j), best)
      invariant forall j: nat :: lo <= j < index ==> Less2(best, score(j))
      decreases hi - k
    {
      var newBest := score(k);
      if Less2(newBest, best) || k == lo {
        best := newBest;
        index := k;
      }
      k := k + 1;
    }
  }

  /**
    The cut `split` makes in the sorted children: the first admissible
    position of least cost; when no position leaves `minSize` children on
    both sides, `minSize`.
  */
  method ChooseSplitIndex(cs: seq<Node>, opts: RTreeOptions) returns (cut: nat)
    requires Valid(opts) && |cs| > opts.maxSize
    ensures opts.minSize <= cut < |cs|
    ensures 2 * opts.minSize <= |cs| ==> cut <= |cs| - opts.minSize
    ensures 2 * opts.minSize > |cs| ==> cut == opts.minSize
    ensures forall k :: opts.minSize <= k <= |cs| - opts.minSize ==> !Less2(SplitCost(cs, k), SplitCost(cs, cut))
    ensures forall k :: opts.minSize <= k < cut ==> Less2(SplitCost(cs, cut), SplitCost(cs, k))
  {
    var score: nat -> (int, int) := k => if 0 < k < |cs| then SplitCost(cs, k) else (0, 0);
    cut := FirstLeast(opts.minSize, |cs| - opts.minSize, score);
    assert score(cut) == SplitCost(cs, cut);
    forall k | opts.minSize <= k <= |cs| - opts.minSize
      ensures !Less2(SplitCost(cs, k), SplitCost(cs, cut))
    {
      assert !Less2(score(k), score(cut));
      assert score(k) == SplitCost(cs, k);
    }
    forall k | opts.minSize <= k < cut
      ensures Less2(SplitCost(cs, cut), SplitCost(cs, k))
    {
      assert Less2(score(cut), score(k));
      assert score(k) == SplitCost(cs, k);
    }
  }

  /**
    `split`: sorts the children along the chosen axis, cuts them at the
    chosen position and moves the upper part into a new directory node of
    the same depth (`new_parent`). Both nodes get exact boxes.
  */
  method Split(d: DirNode, opts: RTreeOptions) returns (d': DirNode, off: Node)
    requires Valid(opts) && |d.children| > opts.maxSize
    ensures off.Directory? && off.data.depth == d.depth && d'.depth == d.depth
    ensures multiset(d'.children + off.data.children) == multiset(d.children)
    ensures opts.minSize <= |d'.children| && 0 < |off.data.children|
    ensures 2 * opts.minSize <= |d.children| ==> opts.minSize <= |off.data.children|
    ensures d'.boundingBox == ChildrenBox(d'.children)
    ensures off.data.boundingBox == ChildrenBox(off.data.children)
    ensures exists axis :: 0 <= axis < Dim && SeparatedOnAxis(d'.children, off.data.children, axis)
  {
    var axis := GetSplitAxis(d.children, opts);
    var key := LowerOnAxis(axis);
    var sorted := SortBy(d.children, key);
    assert |sorted| == |multiset(sorted)| == |d.children|;
    var cut := ChooseSplitIndex(sorted, opts);
    var offData := UpdateMbr(DirNode(None, sorted[cut..], d.depth));
    d' := UpdateMbr(d.(children := sorted[..cut]));
    off := Directory(offData);
    assert sorted[..cut] + sorted[cut..] == sorted;
    SortedCut(sorted, key, cut);
    assert SeparatedOnAxis(d'.children, off.data.children, axis);
  }

  // ---------------------------------------------------------------------
  // Forced reinsertion

  /**
    The key `reinsert` sorts by: the squared distance between a child's
    centre and the centre `centre` of the node (both doubled).
  */
  function CentreDistance(centre: Point): Node -> int {
    c => Dist2(DoubledCentre(Mbr(c)), centre)
  }

  /**
    `reinsert`: takes out the `reinsertionCount` children whose centres are
    farthest from the centre of the node's box and recomputes the box.
  */
  method Reinsert(d: DirNode, opts: RTreeOptions) returns (d': DirNode, removed: seq<Node>)
    requires Valid(opts) && |d.children| > opts.maxSize
    ensures |removed| == opts.reinsertionCount
    ensures |d'.children| == |d.children| - opts.reinsertionCount
    ensures multiset(d'.children + removed) == multiset(d.children)
    ensures d'.depth == d.depth && d'.boundingBox == ChildrenBox(d'.children)
    ensures forall a, b :: a in d'.children && b in removed ==>
      CentreDistance(DoubledCentre(Mbr(Directory(d))))(a) <= CentreDistance(DoubledCentre(Mbr(Directory(d))))(b)
  {
    var key := CentreDistance(DoubledCentre(Mbr(Directory(d))));
    var kept;
    kept, removed := SplitOffLargest(d.children, key, opts.reinsertionCount);
    d' := UpdateMbr(d.(children := kept));
  }

  // ---------------------------------------------------------------------
  // Resolving an overflow and inserting

  /** Children regrouped from the children of a valid node are valid children. */
  lemma RegroupedChildrenValid(cs: seq<Node>, part: seq<Node>, depth: nat)
    requires ValidChildren(cs, depth)
    requires multiset(part) <= multiset(cs)
    ensures ValidChildren(part, depth)
  {
    forall i | 0 <= i < |part| ensures ValidChild(part[i], depth) {
      assert part[i] in multiset(part);
      assert part[i] in cs;
    }
  }

  /** Splitting a list of children in two splits its objects in two. */
  lemma RegroupedElements(cs: seq<Node>, a: seq<Node>, b: seq<Node>)
    requires multiset(a + b) == multiset(cs)
    ensures multiset(FlattenAll(a)) + multiset(FlattenAll(b)) == multiset(FlattenAll(cs))
  {
    FlattenAllPermutation(a + b, cs);
    FlattenAllAppend(a, b);
  }

  /**
    `resolve_overflow`: a node with more than `maxSize` children makes a
    forced reinsertion the first time its level overflows during an
    insertion and is split afterwards. Reading the flag of a level the
    state has no entry for panics (`Abort`).
  */
  method ResolveOverflow(d: DirNode, state: InsertionState, opts: RTreeOptions) returns (d': DirNode, result: InsertionResult)
    requires Valid(opts) && ValidDir(d) && |d.children| > 0
    modifies state
    ensures |d.children| <= opts.maxSize ==> result.Complete? && d' == d
    ensures |d.children| > opts.maxSize && d.depth >= |old(state.reinsertions)| ==> result.Abort?
    ensures |d.children| > opts.maxSize && d.depth < |old(state.reinsertions)| ==>
      if old(state.reinsertions)[d.depth] then result.Split? else result.Reinsert?
    ensures result.Reinsert? ==> state.reinsertions == old(state.reinsertions)[d.depth := true]
    ensures !result.Reinsert? ==> state.reinsertions == old(state.reinsertions)
    ensures Resolved(d, d', result)
    ensures result.Reinsert? ==> |result.nodes| == opts.reinsertionCount
  {
    if |d.children| <= opts.maxSize {
      return d, Complete;
    }
    if d.depth >= |state.reinsertions| {
      return d, Abort;
    }
    if state.DidReinsert(d.depth) {
      var off;
      d', off := Split(d, opts);
      SplitResolved(d, d', off);
      result := InsertionResult.Split(off);
    } else {
      state.MarkReinsertion(d.depth);
      var nodes;
      d', nodes := Reinsert(d, opts);
      ReinsertResolved(d, d', nodes);
      result := InsertionResult.Reinsert(nodes);
    }
  }

  /** A split of a valid node leaves two valid nodes holding its objects. */
  lemma SplitResolved(d: DirNode, d': DirNode, off: Node)
    requires ValidDir(d)
    requires off.Directory? && off.data.depth == d.depth && d'.depth == d.depth
    requires multiset(d'.children + off.data.children) == multiset(d.children)
    requires 0 < |d'.children| && 0 < |off.data.children|
    requires d'.boundingBox == ChildrenBox(d'.children)
    requires off.data.boundingBox == ChildrenBox(off.data.children)
    ensures Resolved(d, d', InsertionResult.Split(off))
  {
    RegroupedChildrenValid(d.children, d'.children, d.depth);
    RegroupedChildrenValid(d.children, off.data.children, d.depth);
    ChildrenBoxIsExact(d'.children, d.depth);
    ChildrenBoxIsExact(off.data.children, d.depth);
    RegroupedElements(d.children, d'.children, off.data.children);
  }

  /** A forced reinsertion on a valid node leaves a valid node and valid orphans holding its objects. */
  lemma ReinsertResolved(d: DirNode, d': DirNode, nodes: seq<Node>)
    requires ValidDir(d) && d'.depth == d.depth && 0 < |d'.children|
    requires multiset(d'.children + nodes) == multiset(d.children)
    requires d'.boundingBox == ChildrenBox(d'.children)
    ensures Resolved(d, d', InsertionResult.Reinsert(nodes))
  {
    RegroupedChildrenValid(d.children, d'.children, d.depth);
    RegroupedChildrenValid(d.children, nodes, d.depth);
    ChildrenBoxIsExact(d'.children, d.depth);
    RegroupedElements(d.children, d'.children, nodes);
    forall c | c in nodes ensures ValidChild(c, d.depth) {
      var i :| 0 <= i < |nodes| && nodes[i] == c;
    }
  }

  /**
    What `resolve_overflow` leaves of a valid node `d`: the node itself when
    nothing overflowed; a valid node and a valid split-off sibling holding
    the objects of `d` between them; or a valid node and valid children
    handed back for reinsertion, again holding the objects of `d`.
  */
  ghost predicate Resolved(d: DirNode, d': DirNode, result: InsertionResult) {
    && (result.Complete? ==> d' == d)
    && (!result.Abort? ==> ValidDir(d') && |d'.children| > 0 && d'.depth == d.depth)
    && (result.Split? ==>
          && ValidChild(result.node, d.depth + 1)
          && Elements(d') + Elements(result.node.data) == Elements(d))
    && (result.Reinsert? ==>
          && (forall c :: c in result.nodes ==> ValidChild(c, d.depth))
          && Elements(d') + multiset(FlattenAll(result.nodes)) == Elements(d))
  }

  /** A resolved node that took `t` keeps the promises of an insertion. */
  lemma ResolvedInserted(d: DirNode, t: Node, d2: DirNode, d': DirNode, result: InsertionResult)
    requires ValidDir(d2) && d2.depth == d.depth && Elements(d2) == Elements(d) + multiset(Flatten(t))
    requires Resolved(d2, d', result)
    ensures Inserted(d, t, d', result)
  {
    if result.Reinsert? {
      OrphansFromChildren(result.nodes, d.depth);
    }
  }

  /**
    The box `update_mbr_with_element` leaves on a valid node is tight
    around the node's objects and those of the node being inserted.
  */
  lemma GrownBoxIsTight(d: DirNode, t: Node)
    requires ValidDir(d) && ValidNode(t)
    ensures UpdateMbrWithElement(d, t).boundingBox.Some?
    ensures Tight(UpdateMbrWithElement(d, t).boundingBox.value, FlattenAll(d.children) + Flatten(t))
  {
    MbrIsTight(t);
    ExtendBoxByOne(d.boundingBox, FlattenAll(d.children), t, Flatten(t));
  }

  /** The objects of one child are among the objects of all children. */
  lemma ChildElementsIncluded(cs: seq<Node>, i: nat)
    requires i < |cs|
    ensures multiset(Flatten(cs[i])) <= multiset(FlattenAll(cs))
  {
    FlattenAllSplit(cs, i);
  }

  /** Replacing a child by a valid one keeps the children valid. */
  lemma ReplacedChildValid(cs: seq<Node>, i: nat, c: Node, depth: nat)
    requires ValidChildren(cs, depth) && i < |cs| && ValidChild(c, depth)
    ensures ValidChildren(cs[i := c], depth)
  {
  }

  /** Appending a valid child keeps the children valid. */
  lemma AppendedChildValid(cs: seq<Node>, c: Node, depth: nat)
    requires ValidChildren(cs, depth) && ValidChild(c, depth)
    ensures ValidChildren(cs + [c], depth)
  {
  }

  /** Sequences with the same multiset have the same members. */
  lemma SameMembers(a: seq<Rect>, b: seq<Rect>)
    requires multiset(a) == multiset(b)
    ensures forall e :: e in a <==> e in b
  {
    forall e ensures e in a <==> e in b {
      assert e in a <==> e in multiset(a);
    }
  }

  /** Objects already present add no new members. */
  lemma SplitOffMembers(a: seq<Rect>, g: seq<Rect>, b: seq<Rect>)
    requires multiset(a) == multiset(b) && multiset(g) <= multiset(a)
    ensures forall e :: e in a + g <==> e in b
  {
    forall e ensures e in a + g <==> e in b {
      assert e in a <==> e in multiset(a);
      assert e in g <==> e in multiset(g);
    }
  }

  /** A box tight around `s` is exact for children holding the objects of `s`. */
  lemma TightBoxIsExact(box: Rect, s: seq<Rect>, cs: seq<Node>)
    requires Tight(box, s) && |cs| > 0
    requires multiset(FlattenAll(cs)) == multiset(s)
    ensures ExactBox(Some(box), cs)
  {
    SameMembers(s, FlattenAll(cs));
    TightSameMembers(box, s, FlattenAll(cs));
  }

  /**
    A box tight around `s`, grown by the box of a node `n` whose objects
    are among `s`, is exact for children holding the objects of `s`.
  */
  lemma GrownBoxIsExact(box: Rect, s: seq<Rect>, n: Node, cs: seq<Node>)
    requires Tight(box, s) && ValidNode(n) && |cs| > 0
    requires multiset(FlattenAll(cs)) == multiset(s) && multiset(Flatten(n)) <= multiset(s)
    ensures ExactBox(ExtendBox(Some(box), [n]), cs)
  {
    MbrIsTight(n);
    ExtendBoxByOne(Some(box), s, n, Flatten(n));
    SplitOffMembers(s, Flatten(n), FlattenAll(cs));
    TightSameMembers(ExtendBox(Some(box), [n]).value, s + Flatten(n), FlattenAll(cs));
  }

  /** Taking a part out of a whole and putting in what it was exchanged for. */
  lemma ExchangeParts<T>(whole: multiset<T>, part: multiset<T>, kept: multiset<T>, given: multiset<T>, taken: multiset<T>)
    requires part <= whole && kept + given == part + taken
    ensures whole - part + kept + given == whole + taken
    ensures given <= whole + taken
  {
    forall x ensures (whole - part + kept + given)[x] == (whole + taken)[x] {
      assert (kept + given)[x] == (part + taken)[x];
    }
  }

  /**
    Replacing the child at `index` by one `c` that, together with what it
    gives back, holds the old child's objects and `taken`, adds `taken` to
    the objects of all children.
  */
  lemma ReplacedChildElements(cs: seq<Node>, index: nat, c: Node, given: multiset<Rect>, taken: multiset<Rect>)
    requires index < |cs|
    requires multiset(Flatten(c)) + given == multiset(Flatten(cs[index])) + taken
    ensures multiset(FlattenAll(cs[index := c])) + given == multiset(FlattenAll(cs)) + taken
    ensures given <= multiset(FlattenAll(cs)) + taken
  {
    FlattenAllUpdate(cs, index, c);
    ChildElementsIncluded(cs, index);
    ExchangeParts(multiset(FlattenAll(cs)), multiset(Flatten(cs[index])), multiset(Flatten(c)), given, taken);
  }

  /**
    Replacing the child at `index` by `c` and appending the node `n` split
    off it, where `c` and `n` hold the old child's objects and `taken`,
    adds `taken` to the objects of all children.
  */
  lemma SplitOffElements(cs: seq<Node>, index: nat, c: Node, n: Node, taken: multiset<Rect>)
    requires index < |cs|
    requires multiset(Flatten(c)) + multiset(Flatten(n)) == multiset(Flatten(cs[index])) + taken
    ensures multiset(FlattenAll(cs[index := c] + [n])) == multiset(FlattenAll(cs)) + taken
    ensures multiset(Flatten(n)) <= multiset(FlattenAll(cs)) + taken
  {
    ReplacedChildElements(cs, index, c, multiset(Flatten(n)), taken);
    FlattenAllAppend(cs[index := c], [n]);
    FlattenAllSingleton(n);
  }

  // ---------------------------------------------------------------------
  // Inserting

  /** Nodes handed back for reinsertion into a node at `depth`. */
  ghost predicate Orphans(nodes: seq<Node>, depth: nat) {
    forall i :: 0 <= i < |nodes| ==> ValidNode(nodes[i]) && Depth(nodes[i]) < depth
  }

  /**
    What inserting `t` into `d` promises about the node `d'` it leaves and
    the result: unless the insertion panicked, `d'` is valid and non-empty
    at the same depth, and the objects of `d'`, of a node split off it and
    of the nodes handed back for reinsertion are exactly the objects of
    `d` and of `t`.
  */
  ghost predicate Inserted(d: DirNode, t: Node, d': DirNode, result: InsertionResult) {
    && (!result.Abort? ==> ValidDir(d') && |d'.children| > 0 && d'.depth == d.depth)
    && (result.Complete? ==> Elements(d') == Elements(d) + multiset(Flatten(t)))
    && (result.Split? ==>
          && ValidChild(result.node, d.depth + 1)
          && Elements(d') + Elements(result.node.data) == Elements(d) + multiset(Flatten(t)))
    && (result.Reinsert? ==>
          && Orphans(result.nodes, d.depth)
          && Elements(d') + multiset(FlattenAll(result.nodes)) == Elements(d) + multiset(Flatten(t)))
  }

  /**
    How an insertion changes the per-level reinsertion flags: a forced
    reinsertion sets one flag that was clear, anything else sets none.
  */
  ghost predicate Marked(before: seq<bool>, after: seq<bool>, result: InsertionResult) {
    && |after| == |before|
    && (result.Reinsert? ==> Unmarked(after) < Unmarked(before))
    && (!result.Reinsert? ==> after == before)
  }

  /**
    `DirectoryNodeData::insert`: inserts `t` (an object, or a node handed
    back for reinsertion) into the subtree at the level one below its own
    depth. The box is grown first; below the target level the insertion
    descends into the child `choose_subtree` picks. A node that overflows
    is handled by `resolve_overflow`; reading the flag of a level the
    state has no entry for panics (`Abort`).
  */
  method Insert(d: DirNode, t: Node, state: InsertionState, opts: RTreeOptions) returns (d': DirNode, result: InsertionResult)
    requires Valid(opts) && ValidDir(d) && ValidNode(t) && Depth(t) < d.depth
    requires Depth(t) + 1 < d.depth ==> |d.children| > 0
    modifies state
    decreases d.depth, 1
    ensures Marked(old(state.reinsertions), state.reinsertions, result)
    ensures result.Abort? ==> |old(state.reinsertions)| <= d.depth
    ensures Inserted(d, t, d', result)
  {
    if Depth(t) + 1 == d.depth {
      d', result := InsertHere(d, t, state, opts);
    } else {
      d', result := InsertBelow(d, t, state, opts);
    }
  }

  /** `insert` at the target level: `t` becomes a child of `d`. */
  method InsertHere(d: DirNode, t: Node, state: InsertionState, opts: RTreeOptions) returns (d': DirNode, result: InsertionResult)
    requires Valid(opts) && ValidDir(d) && ValidNode(t) && Depth(t) + 1 == d.depth
    modifies state
    ensures Marked(old(state.reinsertions), state.reinsertions, result)
    ensures result.Abort? ==> |old(state.reinsertions)| <= d.depth
    ensures Inserted(d, t, d', result)
  {
    var d2 := AddChildren(UpdateMbrWithElement(d, t), [t]);
    AddedHere(d, t, d2);
    d', result := ResolveOverflow(d2, state, opts);
    ResolvedInserted(d, t, d2, d', result);
    if result.Reinsert? {
      MarkingUsesUpOne(old(state.reinsertions), d.depth);
    }
  }

  /** Children handed back by `resolve_overflow` are nodes for reinsertion. */
  lemma OrphansFromChildren(nodes: seq<Node>, depth: nat)
    requires forall c :: c in nodes ==> ValidChild(c, depth)
    ensures Orphans(nodes, depth)
  {
    forall i | 0 <= i < |nodes| ensures ValidNode(nodes[i]) && Depth(nodes[i]) < depth {
      assert nodes[i] in nodes;
      ValidChildIsValidNode(nodes[i], depth);
    }
  }

  /** `t` added to `d` after growing its box: a valid node holding both. */
  lemma AddedHere(d: DirNode, t: Node, d2: DirNode)
    requires ValidDir(d) && ValidNode(t) && Depth(t) + 1 == d.depth
    requires d2 == d.(children := d.children + [t],
                      boundingBox := ExtendBox(UpdateMbrWithElement(d, t).boundingBox, [t]))
    ensures ValidDir(d2) && |d2.children| > 0
    ensures Elements(d2) == Elements(d) + multiset(Flatten(t))
  {
    var grown := FlattenAll(d.children) + Flatten(t);
    FlattenAllAppend(d.children, [t]);
    FlattenAllSingleton(t);
    assert ValidChild(t, d.depth);
    AppendedChildValid(d.children, t, d.depth);
    GrownBoxIsTight(d, t);
    GrownBoxIsExact(UpdateMbrWithElement(d, t).boundingBox.value, grown, t, d2.children);
  }

  /**
    `insert` below the target level: descends into the child
    `choose_subtree` picks and absorbs what that insertion returns.
  */
  method InsertBelow(d: DirNode, t: Node, state: InsertionState, opts: RTreeOptions) returns (d': DirNode, result: InsertionResult)
    requires Valid(opts) && ValidDir(d) && ValidNode(t) && Depth(t) + 1 < d.depth && |d.children| > 0
    modifies state
    decreases d.depth, 0
    ensures Marked(old(state.reinsertions), state.reinsertions, result)
    ensures result.Abort? ==> |old(state.reinsertions)| <= d.depth
    ensures Inserted(d, t, d', result)
  {
    var d1 := UpdateMbrWithElement(d, t);
    var index := ChooseSubtree(d1, t);
    var child := d.children[index];
    assert ValidChild(child, d.depth);
    var newChild, r := Insert(child.data, t, state, opts);
    match r
    case Abort =>
      return d1, Abort;
    case Split(node) =>
      d', result := AbsorbSplit(d, t, index, newChild, node, state, opts);
    case Reinsert(nodes) =>
      d' := AbsorbReinsert(d, t, index, newChild, nodes);
      result := r;
    case Complete =>
      d' := d1.(children := d.children[index := Directory(newChild)]);
      ReplacedChild(d, t, index, newChild, d');
      result := Complete;
  }

  /**
    The child at `index` took `t` and split off `node`: the node with the
    new child and `node` appended may overflow in turn.
  */
  method AbsorbSplit(d: DirNode, t: Node, index: nat, newChild: DirNode, node: Node, state: InsertionState, opts: RTreeOptions)
    returns (d': DirNode, result: InsertionResult)
    requires Valid(opts) && ValidDir(d) && ValidNode(t) && index < |d.children|
    requires ValidChild(Directory(newChild), d.depth) && ValidChild(node, d.depth)
    requires multiset(Flatten(Directory(newChild))) + multiset(Flatten(node)) == multiset(Flatten(d.children[index])) + multiset(Flatten(t))
    modifies state
    ensures Marked(old(state.reinsertions), state.reinsertions, result)
    ensures result.Abort? ==> |old(state.reinsertions)| <= d.depth
    ensures Inserted(d, t, d', result)
  {
    var d2 := UpdateMbrWithElement(d, t).(children := d.children[index := Directory(newChild)]);
    var d3 := AddChildren(d2, [node]);
    AddedSplitOff(d, t, index, newChild, node, d3);
    d', result := ResolveOverflow(d3, state, opts);
    ResolvedInserted(d, t, d3, d', result);
    if result.Reinsert? {
      MarkingUsesUpOne(old(state.reinsertions), d.depth);
    }
  }

  /** The node with the new child and the split-off node appended. */
  lemma AddedSplitOff(d: DirNode, t: Node, index: nat, newChild: DirNode, node: Node, d3: DirNode)
    requires ValidDir(d) && ValidNode(t) && index < |d.children|
    requires ValidChild(Directory(newChild), d.depth) && ValidChild(node, d.depth)
    requires multiset(Flatten(Directory(newChild))) + multiset(Flatten(node)) == multiset(Flatten(d.children[index])) + multiset(Flatten(t))
    requires d3 == d.(children := d.children[index := Directory(newChild)] + [node],
                      boundingBox := ExtendBox(UpdateMbrWithElement(d, t).boundingBox, [node]))
    ensures ValidDir(d3) && |d3.children| > 0
    ensures Elements(d3) == Elements(d) + multiset(Flatten(t))
  {
    var grown := FlattenAll(d.children) + Flatten(t);
    SplitOffElements(d.children, index, Directory(newChild), node, multiset(Flatten(t)));
    ReplacedChildValid(d.children, index, Directory(newChild), d.depth);
    AppendedChildValid(d.children[index := Directory(newChild)], node, d.depth);
    GrownBoxIsTight(d, t);
    ValidChildIsValidNode(node, d.depth);
    GrownBoxIsExact(UpdateMbrWithElement(d, t).boundingBox.value, grown, node, d3.children);
  }

  /**
    The child at `index` took `t` and handed back `nodes` for
    reinsertion: the box is recomputed from the children.
  */
  method AbsorbReinsert(d: DirNode, t: Node, index: nat, newChild: DirNode, nodes: seq<Node>) returns (d': DirNode)
    requires ValidDir(d) && index < |d.children|
    requires ValidChild(Directory(newChild), d.depth)
    requires multiset(Flatten(Directory(newChild))) + multiset(FlattenAll(nodes)) == multiset(Flatten(d.children[index])) + multiset(Flatten(t))
    ensures ValidDir(d') && |d'.children| > 0 && d'.depth == d.depth
    ensures Elements(d') + multiset(FlattenAll(nodes)) == Elements(d) + multiset(Flatten(t))
  {
    var cs := d.children[index := Directory(newChild)];
    d' := UpdateMbr(d.(children := cs));
    ReplacedChildValid(d.children, index, Directory(newChild), d.depth);
    ChildrenBoxIsExact(cs, d.depth);
    ReplacedChildElements(d.children, index, Directory(newChild), multiset(FlattenAll(nodes)), multiset(Flatten(t)));
  }

  /**
    The child at `index` took `t` without overflowing: the node with the
    grown box and the new child holds its old objects and those of `t`.
  */
  lemma ReplacedChild(d: DirNode, t: Node, index: nat, newChild: DirNode, d2: DirNode)
    requires ValidDir(d) && ValidNode(t) && index < |d.children|
    requires ValidChild(Directory(newChild), d.depth)
    requires multiset(Flatten(Directory(newChild))) == multiset(Flatten(d.children[index])) + multiset(Flatten(t))
    requires d2 == UpdateMbrWithElement(d, t).(children := d.children[index := Directory(newChild)])
    ensures ValidDir(d2) && |d2.children| > 0
    ensures Elements(d2) == Elements(d) + multiset(Flatten(t))
  {
    ReplacedChildElements(d.children, index, Directory(newChild), multiset{}, multiset(Flatten(t)));
    assert multiset(FlattenAll(d2.children)) + multiset{} == multiset(FlattenAll(d2.children));
    ReplacedChildValid(d.children, index, Directory(newChild), d.depth);
    GrownBoxIsTight(d, t);
    TightBoxIsExact(UpdateMbrWithElement(d, t).boundingBox.value, FlattenAll(d.children) + Flatten(t), d2.children);
  }
}
