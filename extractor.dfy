/**
 * `VariantSeqExtractor`: applies variants to a reference interval, walking outward from an
 * anchor, and returns the mutated sequence, optionally cut back to the interval's length.
 */
module Extractor {
  import opened Wrappers
  import opened PyText
  import opened Sorting
  import opened Genomics
  import opened SeqBuilder

  /** The (ref, alt) `Sequence` pair one variant becomes. */
  datatype Pair = Pair(ref: Seq, alt: Seq)

  predicate NormalizedPair(p: Pair) { Normalized(p.ref) && Normalized(p.alt) }

  predicate AllNormalized(pairs: seq<Pair>) {
    forall k :: 0 <= k < |pairs| ==> NormalizedPair(pairs[k])
  }

  // ------------------------------------------------------------- normalise

  /**
   * `_variant_to_sequence`: REF and ALT[0] as sequences starting at the 0-based `POS - 1`,
   * each ending where its own text ends.
   */
  function VariantToSequence(variants: seq<Variant>): (pairs: seq<Pair>)
    ensures |pairs| == |variants| && AllNormalized(pairs)
    ensures forall k :: 0 <= k < |variants| ==>
              pairs[k].ref.text == variants[k].ref && pairs[k].alt.text == variants[k].alt &&
              pairs[k].ref.start == variants[k].pos - 1 && pairs[k].alt.start == variants[k].pos - 1
  {
    seq(|variants|, k requires 0 <= k < |variants| =>
      var v := variants[k];
      Pair(Seq(v.ref, v.Start(), v.Start() + |v.ref|), Seq(v.alt, v.Start(), v.Start() + |v.alt|)))
  }

  // ----------------------------------------------------------------- split

  datatype Which = Left | Right | Both

  /** The pair's reference segment strictly contains `point`. */
  predicate Straddles(p: Pair, point: int) { p.ref.start < point < p.ref.end }

  /** `q`'s reference segment lies inside `p`'s. */
  predicate Within(q: Pair, p: Pair) { p.ref.start <= q.ref.start && q.ref.end <= p.ref.end }

  /** `ref[:mid], alt[:mid]`. */
  function LeftPiece(p: Pair, mid: int): Pair {
    Pair(SliceSeq(p.ref, 0, mid), SliceSeq(p.alt, 0, mid))
  }

  /** `ref[mid:], alt[mid:]`. */
  function RightPiece(p: Pair, mid: int): Pair {
    Pair(SliceSeq(p.ref, mid, |p.ref.text|), SliceSeq(p.alt, mid, |p.alt.text|))
  }

  /**
   * What `_split_overlapping` yields for one pair: a straddling pair gives its left piece for
   * `left`, its right piece for `right` and both, left first, for `both`; any other pair is
   * yielded as it is.
   */
  function SplitPair(p: Pair, point: int, which: Which): (r: seq<Pair>)
    ensures |r| == (if Straddles(p, point) && which == Both then 2 else 1)
    ensures Straddles(p, point) ==>
              var mid := point - p.ref.start;
              r == (if which == Left then [LeftPiece(p, mid)]
                    else if which == Right then [RightPiece(p, mid)]
                    else [LeftPiece(p, mid), RightPiece(p, mid)])
    ensures !Straddles(p, point) ==> r == [p]
  {
    if Straddles(p, point) then
      var mid := point - p.ref.start;
      (if which != Right then [LeftPiece(p, mid)] else []) +
      (if which != Left then [RightPiece(p, mid)] else [])
    else
      [p]
  }

  /**
   * A straddling pair is cut at `mid = point - ref.start`: the reference pieces are
   * `ref[:mid]` and `ref[mid:]` and meet at `point`; the alt pieces are `alt[:m]` and `alt[m:]`
   * with `m = min(mid, len(alt))`, so a short alt leaves an empty right piece; both texts
   * rejoin to the originals, and neither piece straddles `point`.
   */
  lemma SplitAtPoint(p: Pair, point: int)
    requires NormalizedPair(p) && Straddles(p, point)
    ensures var mid := point - p.ref.start;
            var m := Min(mid, |p.alt.text|);
            var l, r := LeftPiece(p, mid), RightPiece(p, mid);
            && l.ref == Seq(p.ref.text[..mid], p.ref.start, point)
            && r.ref == Seq(p.ref.text[mid..], point, p.ref.end)
            && l.alt == Seq(p.alt.text[..m], p.alt.start, p.alt.start + m)
            && r.alt == Seq(p.alt.text[m..], p.alt.start + m, p.alt.end)
            && l.ref.text + r.ref.text == p.ref.text
            && l.alt.text + r.alt.text == p.alt.text
            && NormalizedPair(l) && NormalizedPair(r)
            && !Straddles(l, point) && !Straddles(r, point)
  {
    var mid := point - p.ref.start;
    var m := Min(mid, |p.alt.text|);
    PieceShapes(p, mid);
    assert Min(mid, |p.ref.text|) == mid;
    assert p.alt.text[..m] + p.alt.text[m..] == p.alt.text;
    assert p.ref.text[..mid] + p.ref.text[mid..] == p.ref.text;
  }

  /** The two pieces of a pair cut at a non-negative `mid`, written out field by field. */
  lemma PieceShapes(p: Pair, mid: int)
    requires mid >= 0
    ensures var mr, ma := Min(mid, |p.ref.text|), Min(mid, |p.alt.text|);
            && LeftPiece(p, mid) == Pair(Seq(p.ref.text[..mr], p.ref.start, p.ref.start + mr),
                                         Seq(p.alt.text[..ma], p.alt.start, p.alt.start + ma))
            && RightPiece(p, mid) == Pair(Seq(p.ref.text[mr..], p.ref.start + mr, p.ref.start + |p.ref.text|),
                                          Seq(p.alt.text[ma..], p.alt.start + ma, p.alt.start + |p.alt.text|))
  {
    SliceHalves(p.ref, mid);
    SliceHalves(p.alt, mid);
  }

  /** A piece is normalized, inside the pair it came from, and clear of `point`. */
  predicate GoodPiece(q: Pair, p: Pair, point: int) {
    NormalizedPair(q) && !Straddles(q, point) && Within(q, p)
  }

  lemma PiecesGood(p: Pair, point: int)
    requires NormalizedPair(p) && Straddles(p, point)
    ensures GoodPiece(LeftPiece(p, point - p.ref.start), p, point)
    ensures GoodPiece(RightPiece(p, point - p.ref.start), p, point)
  {
    SplitAtPoint(p, point);
  }

  /** Each piece of a normalized pair is normalized, inside the pair and clear of `point`. */
  lemma SplitPairPieces(p: Pair, point: int, which: Which)
    requires NormalizedPair(p)
    ensures forall k :: 0 <= k < |SplitPair(p, point, which)| ==> GoodPiece(SplitPair(p, point, which)[k], p, point)
  {
    var r := SplitPair(p, point, which);
    if Straddles(p, point) {
      var mid := point - p.ref.start;
      var lp, rp := LeftPiece(p, mid), RightPiece(p, mid);
      PiecesGood(p, point);
      if which == Left {
        assert r == [lp];
      } else if which == Right {
        assert r == [rp];
      } else {
        assert r == [lp, rp];
      }
    }
  }

  /** `_split_overlapping(pairs, point, which)`. */
  function SplitOverlapping(pairs: seq<Pair>, point: int, which: Which): (r: seq<Pair>)
    ensures (forall k :: 0 <= k < |pairs| ==> !Straddles(pairs[k], point)) ==> r == pairs
  {
    if pairs == [] then []
    else SplitPair(pairs[0], point, which) + SplitOverlapping(pairs[1..], point, which)
  }

  /**
   * After splitting at `point`, whatever `which` is, no pair straddles `point`, every pair is
   * still normalized, and each lies inside one of the input pairs.
   */
  lemma {:induction false} SplitOverlappingClear(pairs: seq<Pair>, point: int, which: Which)
    requires AllNormalized(pairs)
    ensures var r := SplitOverlapping(pairs, point, which);
            && AllNormalized(r)
            && (forall k :: 0 <= k < |r| ==> !Straddles(r[k], point))
            && (forall k :: 0 <= k < |r| ==> exists j :: 0 <= j < |pairs| && Within(r[k], pairs[j]))
  {
    if pairs != [] {
      var head, tail := SplitPair(pairs[0], point, which), SplitOverlapping(pairs[1..], point, which);
      assert NormalizedPair(pairs[0]);
      SplitPairPieces(pairs[0], point, which);
      SplitOverlappingClear(pairs[1..], point, which);
      forall k | 0 <= k < |tail| ensures exists j :: 0 <= j < |pairs| && Within(tail[k], pairs[j]) {
        var j :| 0 <= j < |pairs[1..]| && Within(tail[k], pairs[1..][j]);
        assert Within(tail[k], pairs[j + 1]);
      }
      var r := head + tail;
      forall k | 0 <= k < |r|
        ensures NormalizedPair(r[k]) && !Straddles(r[k], point)
        ensures exists j :: 0 <= j < |pairs| && Within(r[k], pairs[j])
      {
        if k < |head| {
          assert r[k] == head[k];
          assert GoodPiece(head[k], pairs[0], point);
        } else {
          assert r[k] == tail[k - |head|];
        }
      }
    }
  }

  /** Each pair the split yields comes from one input pair. */
  lemma {:induction false} SplitOverlappingOrigin(pairs: seq<Pair>, point: int, which: Which)
    ensures forall q :: q in SplitOverlapping(pairs, point, which) ==>
              exists j :: 0 <= j < |pairs| && q in SplitPair(pairs[j], point, which)
  {
    if pairs != [] {
      SplitOverlappingOrigin(pairs[1..], point, which);
      forall q | q in SplitOverlapping(pairs, point, which)
        ensures exists j :: 0 <= j < |pairs| && q in SplitPair(pairs[j], point, which)
      {
        var tail := SplitOverlapping(pairs[1..], point, which);
        assert SplitOverlapping(pairs, point, which) == SplitPair(pairs[0], point, which) + tail;
        if q !in SplitPair(pairs[0], point, which) {
          assert q in tail;
          var j :| 0 <= j < |pairs[1..]| && q in SplitPair(pairs[1..][j], point, which);
          assert pairs[1..][j] == pairs[j + 1];
        }
      }
    }
  }

  /** One pair is split into exactly the pieces `SplitPair` gives it. */
  lemma SplitOverlappingSingle(p: Pair, point: int, which: Which)
    ensures SplitOverlapping([p], point, which) == SplitPair(p, point, which)
  {
    assert [p][1..] == [];
  }

  /** Splitting a concatenation splits each part in turn: every input pair keeps its place. */
  lemma {:induction false} SplitOverlappingAppend(a: seq<Pair>, b: seq<Pair>, point: int, which: Which)
    ensures SplitOverlapping(a + b, point, which) == SplitOverlapping(a, point, which) + SplitOverlapping(b, point, which)
  {
    if a != [] {
      assert (a + b)[0] == a[0] && (a + b)[1..] == a[1..] + b;
      SplitOverlappingAppend(a[1..], b, point, which);
    } else {
      assert a + b == b;
    }
  }

  /** Every piece of every input pair is in the result. */
  lemma {:induction false} SplitOverlappingComplete(pairs: seq<Pair>, point: int, which: Which)
    ensures forall j, q :: 0 <= j < |pairs| && q in SplitPair(pairs[j], point, which) ==>
              q in SplitOverlapping(pairs, point, which)
  {
    if pairs != [] {
      SplitOverlappingComplete(pairs[1..], point, which);
      var tail := SplitOverlapping(pairs[1..], point, which);
      assert SplitOverlapping(pairs, point, which) == SplitPair(pairs[0], point, which) + tail;
      forall j, q | 0 <= j < |pairs| && q in SplitPair(pairs[j], point, which)
        ensures q in SplitOverlapping(pairs, point, which)
      {
        if j > 0 {
          assert pairs[j] == pairs[1..][j - 1];
          assert q in tail;
        }
      }
    }
  }

  /**
   * A one-sided split (`left` or `right`) keeps one piece per pair, in place: the result is the
   * input with each straddling pair replaced by its kept piece.
   */
  lemma {:induction false} SplitOneSided(pairs: seq<Pair>, point: int, which: Which)
    requires which != Both
    ensures var r := SplitOverlapping(pairs, point, which);
            |r| == |pairs| && forall k :: 0 <= k < |pairs| ==> r[k] == SplitPair(pairs[k], point, which)[0]
  {
    if pairs != [] {
      SplitOneSided(pairs[1..], point, which);
      var tail := SplitOverlapping(pairs[1..], point, which);
      var r := SplitOverlapping(pairs, point, which);
      assert r == SplitPair(pairs[0], point, which) + tail;
      forall k | 0 <= k < |pairs| ensures r[k] == SplitPair(pairs[k], point, which)[0] {
        if k > 0 {
          assert r[k] == tail[k - 1];
          assert pairs[k] == pairs[1..][k - 1];
        }
      }
    }
  }

  // ---------------------------------------------------------------- anchor

  /** `max(min(anchor, interval.end), interval.start)`. */
  function ClampAnchor(anchor: int, interval: Interval): (a: int)
    ensures interval.start <= a
    ensures interval.start <= interval.end ==> a <= interval.end
    ensures interval.start <= anchor <= interval.end ==> a == anchor
    ensures anchor < interval.start ==> a == interval.start
    ensures interval.start <= interval.end < anchor ==> a == interval.end
    ensures interval.end < interval.start ==> a == interval.start
  {
    Max(Min(anchor, interval.end), interval.start)
  }

  // ----------------------------------------------------- partition and sort

  function StartKey(p: Pair): int { p.ref.start }

  function DescendingKey(p: Pair): int { -p.ref.start }

  /** `filter(lambda x: x[0].start >= anchor, pairs)`. */
  function AtOrAfter(pairs: seq<Pair>, anchor: int): (r: seq<Pair>)
    ensures forall q :: q in r <==> q in pairs && q.ref.start >= anchor
  {
    if pairs == [] then []
    else (if pairs[0].ref.start >= anchor then [pairs[0]] else []) + AtOrAfter(pairs[1..], anchor)
  }

  /** `filter(lambda x: x[0].start < anchor, pairs)`. */
  function Before(pairs: seq<Pair>, anchor: int): (r: seq<Pair>)
    ensures forall q :: q in r <==> q in pairs && q.ref.start < anchor
  {
    if pairs == [] then []
    else (if pairs[0].ref.start < anchor then [pairs[0]] else []) + Before(pairs[1..], anchor)
  }

  /**
   * `filter` keeps the input order: for every start `s`, the kept pairs starting at `s` are
   * the input's pairs starting at `s`, in input order, when `s >= anchor`, and none otherwise.
   */
  lemma {:induction false} AtOrAfterOrder(pairs: seq<Pair>, anchor: int)
    ensures forall s :: WithKey(AtOrAfter(pairs, anchor), StartKey, s) ==
                        if s >= anchor then WithKey(pairs, StartKey, s) else []
  {
    if pairs != [] {
      AtOrAfterOrder(pairs[1..], anchor);
      var head := if pairs[0].ref.start >= anchor then [pairs[0]] else [];
      forall s ensures WithKey(AtOrAfter(pairs, anchor), StartKey, s) ==
                       if s >= anchor then WithKey(pairs, StartKey, s) else []
      {
        WithKeyAppend(head, AtOrAfter(pairs[1..], anchor), StartKey, s);
        assert WithKey(head, StartKey, s) == if s >= anchor && StartKey(pairs[0]) == s then [pairs[0]] else [];
      }
    }
  }

  /**
   * The same for the downstream filter, keyed by the negated start `s`: the input's pairs with
   * start `-s`, in input order, when `-s < anchor`, and none otherwise.
   */
  lemma {:induction false} BeforeOrder(pairs: seq<Pair>, anchor: int)
    ensures forall s :: WithKey(Before(pairs, anchor), DescendingKey, s) ==
                        if -s < anchor then WithKey(pairs, DescendingKey, s) else []
  {
    if pairs != [] {
      BeforeOrder(pairs[1..], anchor);
      var head := if pairs[0].ref.start < anchor then [pairs[0]] else [];
      forall s ensures WithKey(Before(pairs, anchor), DescendingKey, s) ==
                       if -s < anchor then WithKey(pairs, DescendingKey, s) else []
      {
        WithKeyAppend(head, Before(pairs[1..], anchor), DescendingKey, s);
        assert WithKey(head, DescendingKey, s) == if -s < anchor && DescendingKey(pairs[0]) == s then [pairs[0]] else [];
      }
    }
  }

  /** Upstream variants, nearest to the anchor first: ascending start, ties in input order. */
  function Upstream(pairs: seq<Pair>, anchor: int): seq<Pair> {
    StableSort(AtOrAfter(pairs, anchor), StartKey)
  }

  /** Downstream variants, nearest to the anchor first: descending start, ties in input order. */
  function Downstream(pairs: seq<Pair>, anchor: int): seq<Pair> {
    StableSort(Before(pairs, anchor), DescendingKey)
  }

  lemma {:induction false} PartitionCount(pairs: seq<Pair>, anchor: int)
    ensures multiset(AtOrAfter(pairs, anchor)) + multiset(Before(pairs, anchor)) == multiset(pairs)
  {
    if pairs != [] {
      PartitionCount(pairs[1..], anchor);
      assert pairs == [pairs[0]] + pairs[1..];
    }
  }

  /** Each group holds exactly the input pairs on its side of the anchor. */
  lemma PartitionMembers(pairs: seq<Pair>, anchor: int)
    ensures forall q :: q in Upstream(pairs, anchor) <==> q in pairs && q.ref.start >= anchor
    ensures forall q :: q in Downstream(pairs, anchor) <==> q in pairs && q.ref.start < anchor
  {
    var up, down := Upstream(pairs, anchor), Downstream(pairs, anchor);
    StableSortPermutes(AtOrAfter(pairs, anchor), StartKey);
    StableSortPermutes(Before(pairs, anchor), DescendingKey);
    forall q ensures q in up <==> q in pairs && q.ref.start >= anchor {
      assert q in up <==> q in multiset(up);
    }
    forall q ensures q in down <==> q in pairs && q.ref.start < anchor {
      assert q in down <==> q in multiset(down);
    }
  }

  /**
   * Every pair lands in exactly one group (upstream when `start >= anchor`, downstream
   * otherwise); upstream is ascending and downstream descending by start; and pairs with equal
   * starts keep their input order in both.
   */
  lemma Partition(pairs: seq<Pair>, anchor: int)
    ensures multiset(Upstream(pairs, anchor)) + multiset(Downstream(pairs, anchor)) == multiset(pairs)
    ensures forall q :: q in Upstream(pairs, anchor) <==> q in pairs && q.ref.start >= anchor
    ensures forall q :: q in Downstream(pairs, anchor) <==> q in pairs && q.ref.start < anchor
    ensures var up := Upstream(pairs, anchor);
            forall i, j :: 0 <= i < j < |up| ==> up[i].ref.start <= up[j].ref.start
    ensures var down := Downstream(pairs, anchor);
            forall i, j :: 0 <= i < j < |down| ==> down[i].ref.start >= down[j].ref.start
    ensures forall s :: WithKey(Upstream(pairs, anchor), StartKey, s) == WithKey(AtOrAfter(pairs, anchor), StartKey, s)
    ensures forall s :: WithKey(Downstream(pairs, anchor), DescendingKey, s) == WithKey(Before(pairs, anchor), DescendingKey, s)
    ensures forall s :: WithKey(Upstream(pairs, anchor), StartKey, s) ==
                        if s >= anchor then WithKey(pairs, StartKey, s) else []
    ensures forall s :: WithKey(Downstream(pairs, anchor), DescendingKey, s) ==
                        if -s < anchor then WithKey(pairs, DescendingKey, s) else []
  {
    AtOrAfterOrder(pairs, anchor);
    BeforeOrder(pairs, anchor);
    PartitionCount(pairs, anchor);
    StableSortPermutes(AtOrAfter(pairs, anchor), StartKey);
    StableSortPermutes(Before(pairs, anchor), DescendingKey);
    StableSortCorrect(AtOrAfter(pairs, anchor), StartKey);
    StableSortCorrect(Before(pairs, anchor), DescendingKey);
    PartitionMembers(pairs, anchor);
    var up, down := Upstream(pairs, anchor), Downstream(pairs, anchor);
    forall i, j | 0 <= i < j < |up| ensures up[i].ref.start <= up[j].ref.start {
      assert StartKey(up[i]) <= StartKey(up[j]);
    }
    forall i, j | 0 <= i < j < |down| ensures down[i].ref.start >= down[j].ref.start {
      assert DescendingKey(down[i]) <= DescendingKey(down[j]);
    }
  }

  // -------------------------------------------------------- window extension

  /** The bases a pair deletes: `-(len(alt) - len(ref))` when that is positive, else 0. */
  function Deleted(p: Pair): nat {
    if |p.alt.text| - |p.ref.text| < 0 then |p.ref.text| - |p.alt.text| else 0
  }

  function DeletedBases(pairs: seq<Pair>): nat {
    if pairs == [] then 0 else Deleted(pairs[0]) + DeletedBases(pairs[1..])
  }

  lemma {:induction false} DeletedBasesSnoc(pairs: seq<Pair>, i: nat)
    requires i < |pairs|
    ensures DeletedBases(pairs[..i + 1]) == DeletedBases(pairs[..i]) + Deleted(pairs[i])
  {
    if i > 0 {
      assert pairs[..i + 1][1..] == pairs[1..][..i];
      assert pairs[..i][1..] == pairs[1..][..i - 1];
      DeletedBasesSnoc(pairs[1..], i - 1);
    }
  }

  /** The window is extended exactly when some pair is a net deletion. */
  lemma {:induction false} NoDeletionNoExtension(pairs: seq<Pair>)
    ensures DeletedBases(pairs) == 0 <==> forall k :: 0 <= k < |pairs| ==> |pairs[k].alt.text| >= |pairs[k].ref.text|
  {
    if pairs != [] {
      NoDeletionNoExtension(pairs[1..]);
      assert forall k :: 1 <= k < |pairs| ==> pairs[k] == pairs[1..][k - 1];
    }
  }

  /**
   * `_updated_interval`: the window grows right by the bases the upstream pairs delete and
   * left by those the downstream pairs delete; insertions and substitutions leave it alone.
   */
  method UpdatedInterval(interval: Interval, ups: seq<Pair>, downs: seq<Pair>) returns (istart: int, iend: int)
    ensures istart == interval.start - DeletedBases(downs)
    ensures iend == interval.end + DeletedBases(ups)
    ensures istart <= interval.start && interval.end <= iend
  {
    istart, iend := interval.start, interval.end;
    for i := 0 to |ups|
      invariant iend == interval.end + DeletedBases(ups[..i])
    {
      DeletedBasesSnoc(ups, i);
      var diffLen := |ups[i].alt.text| - |ups[i].ref.text|;
      if diffLen < 0 {
        iend := iend - diffLen;
      }
    }
    assert ups[..|ups|] == ups;
    for i := 0 to |downs|
      invariant istart == interval.start - DeletedBases(downs[..i])
    {
      DeletedBasesSnoc(downs, i);
      var diffLen := |downs[i].alt.text| - |downs[i].ref.text|;
      if diffLen < 0 {
        istart := istart + diffLen;
      }
    }
    assert downs[..|downs|] == downs;
  }

  // ------------------------------------------------------ directional builders

  /** The segments `_upstream_builder` appends, walking right from `prev` toward `iend`. */
  function UpSegments(ups: seq<Pair>, prev: int, iend: int): seq<Segment> {
    if ups == [] || ups[0].ref.start >= iend then
      [Placeholder(prev, iend)]
    else
      [Placeholder(prev, ups[0].ref.start), Literal(ups[0].alt)] + UpSegments(ups[1..], ups[0].ref.end, iend)
  }

  /** The segments `_downstream_builder` appends (before it reverses them), walking left toward `istart`. */
  function DownSegments(downs: seq<Pair>, prev: int, istart: int): seq<Segment> {
    if downs == [] || downs[0].ref.end <= istart then
      [Placeholder(istart, prev)]
    else
      [Placeholder(downs[0].ref.end, prev), Literal(downs[0].alt)] + DownSegments(downs[1..], downs[0].ref.start, istart)
  }

  /** How many upstream pairs the walk uses: it stops at the first one with `ref.start >= iend`. */
  function UpTaken(ups: seq<Pair>, iend: int): (n: nat)
    ensures n <= |ups|
    ensures forall k :: 0 <= k < n ==> ups[k].ref.start < iend
    ensures n < |ups| ==> ups[n].ref.start >= iend
  {
    if ups == [] || ups[0].ref.start >= iend then 0 else 1 + UpTaken(ups[1..], iend)
  }

  /** How many downstream pairs the walk uses: it stops at the first one with `ref.end <= istart`. */
  function DownTaken(downs: seq<Pair>, istart: int): (n: nat)
    ensures n <= |downs|
    ensures forall k :: 0 <= k < n ==> downs[k].ref.end > istart
    ensures n < |downs| ==> downs[n].ref.end <= istart
  {
    if downs == [] || downs[0].ref.end <= istart then 0 else 1 + DownTaken(downs[1..], istart)
  }

  /** Where the upstream walk stands before its `i`-th pair: the anchor, then the previous `ref.end`. */
  function UpPrev(ups: seq<Pair>, prev: int, i: nat): int
    requires i <= |ups|
  {
    if i == 0 then prev else ups[i - 1].ref.end
  }

  /** Where the downstream walk stands before its `i`-th pair: the anchor, then the previous `ref.start`. */
  function DownPrev(downs: seq<Pair>, prev: int, i: nat): int
    requires i <= |downs|
  {
    if i == 0 then prev else downs[i - 1].ref.start
  }

  lemma {:induction false} UpSegmentsLength(ups: seq<Pair>, prev: int, iend: int)
    ensures |UpSegments(ups, prev, iend)| == 2 * UpTaken(ups, iend) + 1
  {
    if ups != [] && ups[0].ref.start < iend {
      UpSegmentsLength(ups[1..], ups[0].ref.end, iend);
    }
  }

  lemma {:induction false} UpSegmentAt(ups: seq<Pair>, prev: int, iend: int, i: nat)
    requires i <= UpTaken(ups, iend)
    ensures |UpSegments(ups, prev, iend)| == 2 * UpTaken(ups, iend) + 1
    ensures i < UpTaken(ups, iend) ==>
              && UpSegments(ups, prev, iend)[2 * i] == Placeholder(UpPrev(ups, prev, i), ups[i].ref.start)
              && UpSegments(ups, prev, iend)[2 * i + 1] == Literal(ups[i].alt)
    ensures i == UpTaken(ups, iend) ==> UpSegments(ups, prev, iend)[2 * i] == Placeholder(UpPrev(ups, prev, i), iend)
  {
    UpSegmentsLength(ups, prev, iend);
    if i > 0 {
      var rest := UpSegments(ups[1..], ups[0].ref.end, iend);
      UpSegmentAt(ups[1..], ups[0].ref.end, iend, i - 1);
      assert UpSegments(ups, prev, iend)[2 * i] == rest[2 * (i - 1)];
      if i < UpTaken(ups, iend) {
        assert UpSegments(ups, prev, iend)[2 * i + 1] == rest[2 * (i - 1) + 1];
      }
      assert i < |ups| ==> ups[i] == ups[1..][i - 1];
      assert i > 1 ==> ups[i - 1] == ups[1..][i - 2];
    }
  }

  /**
   * The upstream list alternates a reference gap `[prev, ref.start)` and the alt literal for each
   * pair the walk takes, `prev` being the anchor and then the previous pair's `ref.end`; it
   * always ends with the gap `[prev, iend)`.
   */
  lemma UpSegmentsShape(ups: seq<Pair>, anchor: int, iend: int)
    ensures var n, segs := UpTaken(ups, iend), UpSegments(ups, anchor, iend);
            && |segs| == 2 * n + 1
            && (forall i :: 0 <= i < n ==>
                 segs[2 * i] == Placeholder(UpPrev(ups, anchor, i), ups[i].ref.start) &&
                 segs[2 * i + 1] == Literal(ups[i].alt))
            && segs[2 * n] == Placeholder(UpPrev(ups, anchor, n), iend)
  {
    var n := UpTaken(ups, iend);
    forall i | 0 <= i <= n
      ensures i < n ==> UpSegments(ups, anchor, iend)[2 * i] == Placeholder(UpPrev(ups, anchor, i), ups[i].ref.start)
      ensures i < n ==> UpSegments(ups, anchor, iend)[2 * i + 1] == Literal(ups[i].alt)
      ensures i == n ==> UpSegments(ups, anchor, iend)[2 * i] == Placeholder(UpPrev(ups, anchor, i), iend)
    {
      UpSegmentAt(ups, anchor, iend, i);
    }
    UpSegmentsLength(ups, anchor, iend);
  }

  lemma {:induction false} DownSegmentsLength(downs: seq<Pair>, prev: int, istart: int)
    ensures |DownSegments(downs, prev, istart)| == 2 * DownTaken(downs, istart) + 1
  {
    if downs != [] && downs[0].ref.end > istart {
      DownSegmentsLength(downs[1..], downs[0].ref.start, istart);
    }
  }

  lemma {:induction false} DownSegmentAt(downs: seq<Pair>, prev: int, istart: int, i: nat)
    requires i <= DownTaken(downs, istart)
    ensures |DownSegments(downs, prev, istart)| == 2 * DownTaken(downs, istart) + 1
    ensures i < DownTaken(downs, istart) ==>
              && DownSegments(downs, prev, istart)[2 * i] == Placeholder(downs[i].ref.end, DownPrev(downs, prev, i))
              && DownSegments(downs, prev, istart)[2 * i + 1] == Literal(downs[i].alt)
    ensures i == DownTaken(downs, istart) ==> DownSegments(downs, prev, istart)[2 * i] == Placeholder(istart, DownPrev(downs, prev, i))
  {
    DownSegmentsLength(downs, prev, istart);
    if i > 0 {
      var rest := DownSegments(downs[1..], downs[0].ref.start, istart);
      DownSegmentAt(downs[1..], downs[0].ref.start, istart, i - 1);
      assert DownSegments(downs, prev, istart)[2 * i] == rest[2 * (i - 1)];
      if i < DownTaken(downs, istart) {
        assert DownSegments(downs, prev, istart)[2 * i + 1] == rest[2 * (i - 1) + 1];
      }
      assert i < |downs| ==> downs[i] == downs[1..][i - 1];
      assert i > 1 ==> downs[i - 1] == downs[1..][i - 2];
    }
  }

  /**
   * The downstream list (before reversal) alternates a reference gap `[ref.end, prev)` and the
   * alt literal for each pair the walk takes, `prev` being the anchor and then the previous
   * pair's `ref.start`; it always ends with the gap `[istart, prev)`.
   */
  lemma DownSegmentsShape(downs: seq<Pair>, anchor: int, istart: int)
    ensures var n, segs := DownTaken(downs, istart), DownSegments(downs, anchor, istart);
            && |segs| == 2 * n + 1
            && (forall i :: 0 <= i < n ==>
                 segs[2 * i] == Placeholder(downs[i].ref.end, DownPrev(downs, anchor, i)) &&
                 segs[2 * i + 1] == Literal(downs[i].alt))
            && segs[2 * n] == Placeholder(istart, DownPrev(downs, anchor, n))
  {
    var n := DownTaken(downs, istart);
    forall i | 0 <= i <= n
      ensures i < n ==> DownSegments(downs, anchor, istart)[2 * i] == Placeholder(downs[i].ref.end, DownPrev(downs, anchor, i))
      ensures i < n ==> DownSegments(downs, anchor, istart)[2 * i + 1] == Literal(downs[i].alt)
      ensures i == n ==> DownSegments(downs, anchor, istart)[2 * i] == Placeholder(istart, DownPrev(downs, anchor, i))
    {
      DownSegmentAt(downs, anchor, istart, i);
    }
    DownSegmentsLength(downs, anchor, istart);
  }

  /** `_upstream_builder`. */
  method UpstreamBuilder(ups: seq<Pair>, anchor: int, iend: int) returns (b: IntervalSeqBuilder)
    ensures fresh(b)
    ensures b.segments == UpSegments(ups, anchor, iend)
  {
    b := new IntervalSeqBuilder();
    var prev := anchor;
    var i := 0;
    while i < |ups|
      invariant 0 <= i <= |ups|
      invariant b.segments + UpSegments(ups[i..], prev, iend) == UpSegments(ups, anchor, iend)
    {
      if ups[i].ref.start >= iend {
        break;
      }
      assert ups[i..][1..] == ups[i + 1..];
      b.Append(Placeholder(prev, ups[i].ref.start));
      b.Append(Literal(ups[i].alt));
      prev := ups[i].ref.end;
      i := i + 1;
    }
    b.Append(Placeholder(prev, iend));
  }

  /** `_downstream_builder`: the appended segments, reversed into ascending coordinate order. */
  method DownstreamBuilder(downs: seq<Pair>, anchor: int, istart: int) returns (b: IntervalSeqBuilder)
    ensures fresh(b)
    ensures b.segments == Reversed(DownSegments(downs, anchor, istart))
  {
    b := new IntervalSeqBuilder();
    var prev := anchor;
    var i := 0;
    while i < |downs|
      invariant 0 <= i <= |downs|
      invariant b.segments + DownSegments(downs[i..], prev, istart) == DownSegments(downs, anchor, istart)
    {
      if downs[i].ref.end <= istart {
        break;
      }
      assert downs[i..][1..] == downs[i + 1..];
      b.Append(Placeholder(downs[i].ref.end, prev));
      b.Append(Literal(downs[i].alt));
      prev := downs[i].ref.start;
      i := i + 1;
    }
    b.Append(Placeholder(istart, prev));
    b.Reverse();
  }

  // ------------------------------------------------------------------- cut

  /**
   * `_cut_to_fix_len`: keeps the last `anchor - interval.start` characters of the downstream text
   * and the first `interval.end - anchor` of the upstream text; a zero-length side gives "".
   */
  function CutToFixLen(down: string, up: string, interval: Interval, anchor: int): (r: (string, string))
    ensures var downLen := anchor - interval.start;
            && (downLen == 0 ==> r.0 == "")
            && (0 < downLen <= |down| ==> r.0 == down[|down| - downLen..])
            && (downLen > |down| ==> r.0 == down)
    ensures var upLen := interval.end - anchor;
            && (upLen == 0 ==> r.1 == "")
            && (0 < upLen <= |up| ==> r.1 == up[..upLen])
            && (upLen > |up| ==> r.1 == up)
  {
    var downLen, upLen := anchor - interval.start, interval.end - anchor;
    (if downLen != 0 then PySlice(down, -downLen, |down|) else "",
     if upLen != 0 then PySlice(up, 0, upLen) else "")
  }
}
