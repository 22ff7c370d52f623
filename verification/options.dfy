/**
  `RTreeOptions`: the node capacity (`maxSize`), the fill a split keeps on
  each side (`minSize`) and how many children a forced reinsertion takes out
  of an overflowing node (`reinsertionCount`). Each setter consumes the
  options and returns the updated value; a failed `assert!` (a panic) is the
  `None` result.
*/
module Options {
  import opened Wrappers

  datatype RTreeOptions = RTreeOptions(maxSize: nat, minSize: nat, reinsertionCount: nat)

  /**
    The relations the tree's algorithms rely on: a split needs
    `minSize >= 1` (it reads the child just before the first candidate cut)
    and `minSize < maxSize`; a forced reinsertion takes out between one and
    `maxSize - 1` of the `maxSize + 1` children of an overflowing node.
  */
  predicate Valid(o: RTreeOptions) {
    0 < o.minSize < o.maxSize && 0 < o.reinsertionCount < o.maxSize
  }

  /** `RTreeOptions::new`: capacity 6, minimum 3, reinsertion count 2. */
  function New(): (o: RTreeOptions)
    ensures Valid(o)
    ensures o.minSize * 2 == o.maxSize
  {
    RTreeOptions(6, 3, 2)
  }

  /**
    `set_max_size` as written: it checks the new capacity against
    `minSize` only.
  */
  function SetMaxSizeAsWritten(o: RTreeOptions, maxSize: nat): (r: Option<RTreeOptions>)
    ensures r.Some? <==> maxSize > o.minSize
    ensures r.Some? ==> r.value == o.(maxSize := maxSize)
  {
    if maxSize > o.minSize then Some(o.(maxSize := maxSize)) else None
  }

  /** `set_min_size` as written: it accepts a minimum of zero. */
  function SetMinSizeAsWritten(o: RTreeOptions, minSize: nat): (r: Option<RTreeOptions>)
    ensures r.Some? <==> o.maxSize > minSize
    ensures r.Some? ==> r.value == o.(minSize := minSize)
  {
    if o.maxSize > minSize then Some(o.(minSize := minSize)) else None
  }

  /**
    `set_max_size`, corrected to also keep the reinsertion count below the
    capacity: it accepts exactly the capacities that keep valid options
    valid.
  */
  function SetMaxSize(o: RTreeOptions, maxSize: nat): (r: Option<RTreeOptions>)
    ensures r.Some? ==> r.value == o.(maxSize := maxSize)
    ensures Valid(o) ==> (r.Some? <==> Valid(o.(maxSize := maxSize)))
  {
    if maxSize > o.minSize && maxSize > o.reinsertionCount then Some(o.(maxSize := maxSize)) else None
  }

  /**
    `set_min_size`, corrected to refuse zero: it accepts exactly the
    minimums that keep valid options valid.
  */
  function SetMinSize(o: RTreeOptions, minSize: nat): (r: Option<RTreeOptions>)
    ensures r.Some? ==> r.value == o.(minSize := minSize)
    ensures Valid(o) ==> (r.Some? <==> Valid(o.(minSize := minSize)))
  {
    if 0 < minSize && o.maxSize > minSize then Some(o.(minSize := minSize)) else None
  }

  /**
    `set_reinsertion_count`: it accepts exactly the counts that keep valid
    options valid.
  */
  function SetReinsertionCount(o: RTreeOptions, reinsertionCount: nat): (r: Option<RTreeOptions>)
    ensures r.Some? ==> r.value == o.(reinsertionCount := reinsertionCount)
    ensures Valid(o) ==> (r.Some? <==> Valid(o.(reinsertionCount := reinsertionCount)))
  {
    if 0 < reinsertionCount && o.maxSize > reinsertionCount then
      Some(o.(reinsertionCount := reinsertionCount))
    else
      None
  }

  /**
    A chain of the written setters, each of which succeeds, yields options
    whose reinsertion count exceeds the capacity: `reinsert` on a node of
    `maxSize + 1 == 3` children then computes `3 - 5` in unsigned arithmetic.
    The corrected `SetMaxSize` refuses the last step.
  */
  lemma MaxSizeSetterLosesReinsertionBound()
    ensures var o1 := SetReinsertionCount(New(), 5);
      && o1 == Some(RTreeOptions(6, 3, 5))
      && var o2 := SetMinSizeAsWritten(o1.value, 1);
      && o2 == Some(RTreeOptions(6, 1, 5))
      && var o3 := SetMaxSizeAsWritten(o2.value, 2);
      && o3 == Some(RTreeOptions(2, 1, 5))
      && !Valid(o3.value)
      && o3.value.maxSize + 1 < o3.value.reinsertionCount
      && SetMaxSize(o2.value, 2) == None
  {
  }

  /**
    The written `set_min_size` accepts zero; the first cut a split then
    examines is `k == 0`, whose preceding child `k - 1` does not exist. The
    corrected `SetMinSize` refuses it.
  */
  lemma MinSizeSetterAcceptsZero()
    ensures SetMinSizeAsWritten(New(), 0) == Some(RTreeOptions(6, 0, 2))
    ensures !Valid(RTreeOptions(6, 0, 2))
    ensures SetMinSize(New(), 0) == None
  {
  }
}
