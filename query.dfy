/**
 * `VariantQueryable.filter_by_num`: the count-range mask of `NumberVariantQuery` and the
 * mask application of `_filter_all`, over lists of `(variants, interval)` pairs.
 */
module VariantQuery {
  import opened Wrappers
  import opened Genomics

  /** The bounds of `NumberVariantQuery`; `None` stands for the unbounded default maximum. */
  datatype NumberQuery = NumberQuery(maxNum: Option<int>, minNum: int)

  predicate InRange(q: NumberQuery, n: int) {
    (q.maxNum.None? || n <= q.maxNum.value) && q.minNum <= n
  }

  /** `NumberVariantQuery.__call__`: all `True` when the count is in range, else all `False`. */
  function NumberMask(q: NumberQuery, variants: seq<Variant>, interval: Interval): (r: seq<bool>)
    ensures |r| == |variants|
    ensures InRange(q, |variants|) ==> forall k :: 0 <= k < |r| ==> r[k]
    ensures !InRange(q, |variants|) ==> forall k :: 0 <= k < |r| ==> !r[k]
  {
    var keep := (q.maxNum.None? || q.maxNum.value >= |variants|) && |variants| >= q.minNum;
    seq(|variants|, _ => keep)
  }

  /** The generator inside `_filter_all`: the variants whose mask entry is true, over `zip`. */
  function Masked(variants: seq<Variant>, mask: seq<bool>): (r: seq<Variant>)
    ensures |r| <= |variants|
    ensures forall k :: 0 <= k < |r| ==> r[k] in variants
    ensures forall k :: 0 <= k < |variants| && k < |mask| && mask[k] ==> variants[k] in r
    decreases |variants|
  {
    if variants == [] || mask == [] then []
    else (if mask[0] then [variants[0]] else []) + Masked(variants[1..], mask[1..])
  }

  /** One variant is kept exactly when its mask entry is true. */
  lemma MaskedSingle(x: Variant, b: bool)
    ensures Masked([x], [b]) == if b then [x] else []
  {
    assert [x][1..] == [] && [b][1..] == [];
  }

  /**
   * Filtering is done entry by entry, in order: masking a concatenation masks each part with
   * its own stretch of the mask. With `MaskedSingle` this fixes the result for every input.
   */
  lemma {:induction false} MaskedAppend(v1: seq<Variant>, m1: seq<bool>, v2: seq<Variant>, m2: seq<bool>)
    requires |v1| == |m1|
    ensures Masked(v1 + v2, m1 + m2) == Masked(v1, m1) + Masked(v2, m2)
    decreases |v1|
  {
    if v1 != [] {
      assert (v1 + v2)[1..] == v1[1..] + v2;
      assert (m1 + m2)[1..] == m1[1..] + m2;
      MaskedAppend(v1[1..], m1[1..], v2, m2);
    } else {
      assert v1 + v2 == v2 && m1 + m2 == m2;
    }
  }

  lemma {:induction false} MaskedAllTrue(variants: seq<Variant>, mask: seq<bool>)
    requires |mask| >= |variants| && forall k :: 0 <= k < |mask| ==> mask[k]
    ensures Masked(variants, mask) == variants
    decreases |variants|
  {
    if variants != [] {
      MaskedAllTrue(variants[1..], mask[1..]);
    }
  }

  lemma {:induction false} MaskedAllFalse(variants: seq<Variant>, mask: seq<bool>)
    requires forall k :: 0 <= k < |mask| ==> !mask[k]
    ensures Masked(variants, mask) == []
    decreases |variants|
  {
    if variants != [] && mask != [] {
      MaskedAllFalse(variants[1..], mask[1..]);
    }
  }

  /** `_filter_all`: each group filtered by the mask the query gives it; intervals are kept. */
  function FilterAll(groups: seq<(seq<Variant>, Interval)>, query: (seq<Variant>, Interval) -> seq<bool>)
    : (r: seq<(seq<Variant>, Interval)>)
    ensures |r| == |groups|
    ensures forall k :: 0 <= k < |r| ==>
              r[k] == (Masked(groups[k].0, query(groups[k].0, groups[k].1)), groups[k].1)
  {
    seq(|groups|, k requires 0 <= k < |groups| =>
      (Masked(groups[k].0, query(groups[k].0, groups[k].1)), groups[k].1))
  }

  /** `filter_by_num`. */
  function FilterByNum(groups: seq<(seq<Variant>, Interval)>, q: NumberQuery): seq<(seq<Variant>, Interval)> {
    FilterAll(groups, (vs, i) => NumberMask(q, vs, i))
  }

  /** `filter_by_num` keeps a group whole when its count is in range and empties it otherwise. */
  lemma FilterByNumSpec(groups: seq<(seq<Variant>, Interval)>, q: NumberQuery)
    ensures |FilterByNum(groups, q)| == |groups|
    ensures forall k :: 0 <= k < |groups| ==>
              && FilterByNum(groups, q)[k].1 == groups[k].1
              && (InRange(q, |groups[k].0|) ==> FilterByNum(groups, q)[k].0 == groups[k].0)
              && (!InRange(q, |groups[k].0|) ==> FilterByNum(groups, q)[k].0 == [])
  {
    forall k | 0 <= k < |groups|
      ensures InRange(q, |groups[k].0|) ==> FilterByNum(groups, q)[k].0 == groups[k].0
      ensures !InRange(q, |groups[k].0|) ==> FilterByNum(groups, q)[k].0 == []
    {
      var mask := NumberMask(q, groups[k].0, groups[k].1);
      if InRange(q, |groups[k].0|) {
        MaskedAllTrue(groups[k].0, mask);
      } else {
        MaskedAllFalse(groups[k].0, mask);
      }
    }
  }
}
