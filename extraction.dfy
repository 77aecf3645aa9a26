/**
 * `VariantSeqExtractor.extract` end to end: the plan it makes before fetching, the string it
 * returns, the method itself, and the promises it keeps (fixed length, identity without
 * variants, strand symmetry, and edge splitting in variable-length mode).
 */
module Extraction {
  import opened Wrappers
  import opened PyText
  import opened Sorting
  import opened Genomics
  import opened SeqBuilder
  import opened Extractor

  /** What `extract` computes before it fetches: the anchor, the two groups and the window. */
  datatype Plan = Plan(anchor: int, ups: seq<Pair>, downs: seq<Pair>, istart: int, iend: int)

  /** Step 1: split at the anchor, and at both interval edges unless the length is fixed. */
  function SplitAll(pairs: seq<Pair>, interval: Interval, anchor: int, fixedLen: bool): seq<Pair> {
    var atAnchor := SplitOverlapping(pairs, anchor, Both);
    if fixedLen then atAnchor
    else SplitOverlapping(SplitOverlapping(atAnchor, interval.start, Right), interval.end, Left)
  }

  /** Steps 1 to 3 of `extract`. */
  function MakePlan(interval: Interval, variants: seq<Variant>, anchor: int, fixedLen: bool): Plan {
    var a := ClampAnchor(anchor, interval);
    var pairs := SplitAll(VariantToSequence(variants), interval, a, fixedLen);
    var ups, downs := Upstream(pairs, a), Downstream(pairs, a);
    if fixedLen then
      Plan(a, ups, downs, interval.start - DeletedBases(downs), interval.end + DeletedBases(ups))
    else
      Plan(a, ups, downs, interval.start, interval.end)
  }

  /** The reference holds the whole window `extract` fetches. */
  predicate WindowAvailable(reference: Reference, interval: Interval, variants: seq<Variant>, anchor: int, fixedLen: bool) {
    var plan := MakePlan(interval, variants, anchor, fixedLen);
    Covers(reference, plan.istart, plan.iend)
  }

  /** Steps 4 to 6: the downstream and upstream texts after restoring both builders. */
  function Assembled(reference: Reference, plan: Plan): (string, string)
    requires Covers(reference, plan.istart, plan.iend)
  {
    var window := Fetch(reference, plan.istart, plan.iend);
    (ResolvedText(Reversed(DownSegments(plan.downs, plan.anchor, plan.istart)), window),
     ResolvedText(UpSegments(plan.ups, plan.anchor, plan.iend), window))
  }

  /** Steps 4 to 7 for a given plan: the assembled texts, cut when the length is fixed, joined. */
  function Finish(reference: Reference, interval: Interval, plan: Plan, fixedLen: bool): string
    requires Covers(reference, plan.istart, plan.iend)
  {
    var (down, up) := Assembled(reference, plan);
    var (d, u) := if fixedLen then CutToFixLen(down, up, interval, plan.anchor) else (down, up);
    d + u
  }

  /** The string `extract` assembles before the strand step. */
  function Unstranded(reference: Reference, interval: Interval, variants: seq<Variant>, anchor: int, fixedLen: bool): string
    requires WindowAvailable(reference, interval, variants, anchor, fixedLen)
  {
    Finish(reference, interval, MakePlan(interval, variants, anchor, fixedLen), fixedLen)
  }

  /** The string `extract` returns. */
  function Extracted(reference: Reference, interval: Interval, variants: seq<Variant>, anchor: int, fixedLen: bool): string
    requires WindowAvailable(reference, interval, variants, anchor, fixedLen)
  {
    Stranded(Unstranded(reference, interval, variants, anchor, fixedLen), interval.strand)
  }

  // ----------------------------------------------------------- length bounds

  /**
   * The upstream walk yields at least `iend - prev` characters less the bases its pairs delete,
   * overlapping pairs included: a gap that would be negative is empty.
   */
  lemma {:induction false} UpLength(ups: seq<Pair>, prev: int, iend: int, w: Seq)
    requires Normalized(w) && w.start <= prev && iend <= w.end
    requires forall k :: 0 <= k < |ups| ==> Normalized(ups[k].ref) && w.start <= ups[k].ref.start
    ensures |ResolvedText(UpSegments(ups, prev, iend), w)| >= iend - prev - DeletedBases(ups)
  {
    if ups == [] || ups[0].ref.start >= iend {
      ResolvedTextSingle(Placeholder(prev, iend), w);
    } else {
      var p := ups[0];
      UpStepLength(ups, prev, iend, w);
      assert Normalized(p.ref);
      UpLength(ups[1..], p.ref.end, iend, w);
    }
  }

  /** One step of the upstream walk: the gap before the first pair, its ALT, then the rest. */
  lemma UpStepLength(ups: seq<Pair>, prev: int, iend: int, w: Seq)
    requires Normalized(w) && w.start <= prev && iend <= w.end
    requires ups != [] && ups[0].ref.start < iend
    ensures |ResolvedText(UpSegments(ups, prev, iend), w)| ==
            Max(0, ups[0].ref.start - prev) + |ups[0].alt.text| + |ResolvedText(UpSegments(ups[1..], ups[0].ref.end, iend), w)|
  {
    var p := ups[0];
    var gap, lit := Placeholder(prev, p.ref.start), Literal(p.alt);
    var rest := UpSegments(ups[1..], p.ref.end, iend);
    assert UpSegments(ups, prev, iend) == [gap] + [lit] + rest;
    ResolvedTextTwoThen(gap, lit, rest, w);
  }

  /** The downstream walk yields at least `prev - istart` characters less the bases its pairs delete. */
  lemma {:induction false} DownLength(downs: seq<Pair>, prev: int, istart: int, w: Seq)
    requires Normalized(w) && w.start <= istart && prev <= w.end
    requires forall k :: 0 <= k < |downs| ==> Normalized(downs[k].ref) && downs[k].ref.start <= w.end
    ensures |ResolvedText(DownSegments(downs, prev, istart), w)| >= prev - istart - DeletedBases(downs)
  {
    if downs == [] || downs[0].ref.end <= istart {
      ResolvedTextSingle(Placeholder(istart, prev), w);
    } else {
      var p := downs[0];
      var gap, lit := Placeholder(p.ref.end, prev), Literal(p.alt);
      var rest := DownSegments(downs[1..], p.ref.start, istart);
      assert DownSegments(downs, prev, istart) == [gap] + [lit] + rest;
      ResolvedTextTwoThen(gap, lit, rest, w);
      assert Normalized(p.ref);
      DownLength(downs[1..], p.ref.start, istart, w);
    }
  }

  lemma ResolvedReversedLength(segs: seq<Segment>, w: Seq)
    ensures |ResolvedText(Reversed(segs), w)| == |ResolvedText(segs, w)|
  {
    RestoreAllReversed(segs, w);
    TextsReversedLength(RestoreAll(segs, w));
  }

  lemma SplitAllNormalized(pairs: seq<Pair>, interval: Interval, anchor: int, fixedLen: bool)
    requires AllNormalized(pairs)
    ensures AllNormalized(SplitAll(pairs, interval, anchor, fixedLen))
  {
    SplitOverlappingClear(pairs, anchor, Both);
    var pairs1 := SplitOverlapping(pairs, anchor, Both);
    if !fixedLen {
      SplitOverlappingClear(pairs1, interval.start, Right);
      SplitOverlappingClear(SplitOverlapping(pairs1, interval.start, Right), interval.end, Left);
    }
  }

  /**
   * With `fixed_len` the window grows by the bases each side's pairs delete, so it never
   * shrinks; without it the window is the interval itself.
   */
  lemma PlanWindow(interval: Interval, variants: seq<Variant>, anchor: int, fixedLen: bool)
    ensures var plan := MakePlan(interval, variants, anchor, fixedLen);
            && plan.anchor == ClampAnchor(anchor, interval)
            && (fixedLen ==> plan.istart == interval.start - DeletedBases(plan.downs) &&
                             plan.iend == interval.end + DeletedBases(plan.ups))
            && plan.istart <= interval.start && interval.end <= plan.iend
            && (!fixedLen ==> plan.istart == interval.start && plan.iend == interval.end)
  {
  }

  /** The pairs that reach the builders are normalized and lie on their side of the anchor. */
  lemma PlanPairs(interval: Interval, variants: seq<Variant>, anchor: int, fixedLen: bool)
    ensures var plan := MakePlan(interval, variants, anchor, fixedLen);
            && (forall k :: 0 <= k < |plan.ups| ==> NormalizedPair(plan.ups[k]) && plan.ups[k].ref.start >= plan.anchor)
            && (forall k :: 0 <= k < |plan.downs| ==> NormalizedPair(plan.downs[k]) && plan.downs[k].ref.start < plan.anchor)
  {
    var a := ClampAnchor(anchor, interval);
    var pairs := SplitAll(VariantToSequence(variants), interval, a, fixedLen);
    SplitAllNormalized(VariantToSequence(variants), interval, a, fixedLen);
    PartitionMembers(pairs, a);
    var ups, downs := Upstream(pairs, a), Downstream(pairs, a);
    forall k | 0 <= k < |ups| ensures NormalizedPair(ups[k]) {
      assert ups[k] in pairs;
    }
    forall k | 0 <= k < |downs| ensures NormalizedPair(downs[k]) {
      assert downs[k] in pairs;
    }
  }

  /**
   * With `fixed_len` only the anchor split happens: the pairs that reach the builders are
   * exactly the anchor-split pieces of the variants, none lost and none added.
   */
  lemma FixedLengthSplits(interval: Interval, variants: seq<Variant>, anchor: int)
    ensures var plan := MakePlan(interval, variants, anchor, true);
            var pairs0 := VariantToSequence(variants);
            forall q :: q in plan.ups + plan.downs <==>
              exists j :: 0 <= j < |pairs0| && q in SplitPair(pairs0[j], plan.anchor, Both)
  {
    var a := ClampAnchor(anchor, interval);
    var pairs0 := VariantToSequence(variants);
    var pairs1 := SplitOverlapping(pairs0, a, Both);
    SplitOverlappingComplete(pairs0, a, Both);
    SplitOverlappingOrigin(pairs0, a, Both);
    PartitionMembers(pairs1, a);
    var plan := MakePlan(interval, variants, anchor, true);
    assert plan.anchor == a && plan.ups == Upstream(pairs1, a) && plan.downs == Downstream(pairs1, a);
    forall q ensures q in plan.ups + plan.downs <==> q in pairs1 {
    }
  }

  /**
   * With `fixed_len`, the result has length `interval.end - interval.start` whatever the
   * variants are, provided the reference holds the extended window.
   */
  lemma ExtractFixedLength(reference: Reference, interval: Interval, variants: seq<Variant>, anchor: int)
    requires interval.start <= interval.end
    requires WindowAvailable(reference, interval, variants, anchor, true)
    ensures |Extracted(reference, interval, variants, anchor, true)| == interval.end - interval.start
  {
    var plan := MakePlan(interval, variants, anchor, true);
    var w := Fetch(reference, plan.istart, plan.iend);
    PlanPairs(interval, variants, anchor, true);
    UpLength(plan.ups, plan.anchor, plan.iend, w);
    DownLength(plan.downs, plan.anchor, plan.istart, w);
    ResolvedReversedLength(DownSegments(plan.downs, plan.anchor, plan.istart), w);
    var (down, up) := Assembled(reference, plan);
    assert |down| >= plan.anchor - interval.start;
    assert |up| >= interval.end - plan.anchor;
  }

  lemma EmptyPlan(interval: Interval, anchor: int, fixedLen: bool)
    requires interval.start <= interval.end
    ensures MakePlan(interval, [], anchor, fixedLen) ==
            Plan(ClampAnchor(anchor, interval), [], [], interval.start, interval.end)
  {
    var a := ClampAnchor(anchor, interval);
    assert VariantToSequence([]) == [];
    assert SplitAll([], interval, a, fixedLen) == [];
  }

  lemma EmptyDownText(w: Seq, a: int)
    requires Normalized(w) && w.start <= a <= w.end
    ensures ResolvedText(Reversed(DownSegments([], a, w.start)), w) == w.text[..a - w.start]
  {
    var seg := Placeholder(w.start, a);
    assert Reversed(DownSegments([], a, w.start)) == [seg] by {
      assert DownSegments([], a, w.start) == [seg];
      assert Reversed([seg]) == [seg];
    }
    PlaceholderResolved(w.start, a, w);
    assert w.text[0 .. a - w.start] == w.text[..a - w.start];
  }

  lemma EmptyUpText(w: Seq, a: int)
    requires Normalized(w) && w.start <= a <= w.end
    ensures ResolvedText(UpSegments([], a, w.end), w) == w.text[a - w.start..]
  {
    assert UpSegments([], a, w.end) == [Placeholder(a, w.end)];
    PlaceholderResolved(a, w.end, w);
    assert w.text[a - w.start .. w.end - w.start] == w.text[a - w.start..];
  }

  lemma EmptyAssembled(reference: Reference, a: int, start: int, end: int)
    requires start <= a <= end && Covers(reference, start, end)
    ensures Assembled(reference, Plan(a, [], [], start, end)) ==
            (RefText(reference, start, end)[..a - start], RefText(reference, start, end)[a - start..])
  {
    var w := Fetch(reference, start, end);
    var plan := Plan(a, [], [], start, end);
    assert plan.istart == w.start && plan.iend == w.end && w.text == RefText(reference, start, end);
    EmptyDownText(w, a);
    EmptyUpText(w, a);
  }

  /** A cut whose sides already have the target lengths changes nothing. */
  lemma CutKeepsExact(down: string, up: string, interval: Interval, anchor: int)
    requires |down| == anchor - interval.start && |up| == interval.end - anchor
    ensures CutToFixLen(down, up, interval, anchor) == (down, up)
  {
    assert down[|down| - |down|..] == down;
    assert up[..|up|] == up;
  }

  /**
   * With no variants, `extract` returns the reference text of the interval (reverse
   * complemented on the minus strand), in either mode and for any anchor.
   */
  lemma ExtractIdentity(reference: Reference, interval: Interval, anchor: int, fixedLen: bool)
    requires interval.start <= interval.end && Covers(reference, interval.start, interval.end)
    ensures WindowAvailable(reference, interval, [], anchor, fixedLen)
    ensures Extracted(reference, interval, [], anchor, fixedLen) ==
            Stranded(RefText(reference, interval.start, interval.end), interval.strand)
  {
    EmptyPlan(interval, anchor, fixedLen);
    FinishEmpty(reference, interval, ClampAnchor(anchor, interval), fixedLen);
  }

  /** When the two halves already have the target lengths, `fixed_len` or not, they are simply joined. */
  lemma FinishExact(reference: Reference, interval: Interval, plan: Plan, fixedLen: bool, down: string, up: string)
    requires Covers(reference, plan.istart, plan.iend) && Assembled(reference, plan) == (down, up)
    requires |down| == plan.anchor - interval.start && |up| == interval.end - plan.anchor
    ensures Finish(reference, interval, plan, fixedLen) == down + up
  {
    if fixedLen {
      CutKeepsExact(down, up, interval, plan.anchor);
    }
  }

  lemma FinishEmpty(reference: Reference, interval: Interval, a: int, fixedLen: bool)
    requires interval.start <= a <= interval.end && Covers(reference, interval.start, interval.end)
    ensures Finish(reference, interval, Plan(a, [], [], interval.start, interval.end), fixedLen) ==
            RefText(reference, interval.start, interval.end)
  {
    var text := RefText(reference, interval.start, interval.end);
    var down, up := text[..a - interval.start], text[a - interval.start..];
    EmptyAssembled(reference, a, interval.start, interval.end);
    FinishExact(reference, interval, Plan(a, [], [], interval.start, interval.end), fixedLen, down, up);
    SliceJoin(text, a - interval.start);
  }

  /** Only the coordinates of the interval decide the plan; its strand does not. */
  lemma PlanIgnoresStrand(interval: Interval, strand: string, variants: seq<Variant>, anchor: int, fixedLen: bool)
    ensures MakePlan(interval.(strand := strand), variants, anchor, fixedLen) == MakePlan(interval, variants, anchor, fixedLen)
  {
    var other := interval.(strand := strand);
    var a := ClampAnchor(anchor, interval);
    assert ClampAnchor(anchor, other) == a;
    var pairs := VariantToSequence(variants);
    assert SplitAll(pairs, other, a, fixedLen) == SplitAll(pairs, interval, a, fixedLen);
  }

  lemma FinishIgnoresStrand(reference: Reference, interval: Interval, strand: string, plan: Plan, fixedLen: bool)
    requires Covers(reference, plan.istart, plan.iend)
    ensures Finish(reference, interval.(strand := strand), plan, fixedLen) == Finish(reference, interval, plan, fixedLen)
  {
    var texts := Assembled(reference, plan);
    CutIgnoresStrand(texts.0, texts.1, interval, strand, plan.anchor);
  }

  lemma CutIgnoresStrand(down: string, up: string, interval: Interval, strand: string, anchor: int)
    ensures CutToFixLen(down, up, interval.(strand := strand), anchor) == CutToFixLen(down, up, interval, anchor)
  {
  }

  lemma UnstrandedIgnoresStrand(reference: Reference, interval: Interval, strand: string, variants: seq<Variant>, anchor: int, fixedLen: bool)
    requires WindowAvailable(reference, interval, variants, anchor, fixedLen)
    ensures WindowAvailable(reference, interval.(strand := strand), variants, anchor, fixedLen)
    ensures Unstranded(reference, interval.(strand := strand), variants, anchor, fixedLen) ==
            Unstranded(reference, interval, variants, anchor, fixedLen)
  {
    PlanIgnoresStrand(interval, strand, variants, anchor, fixedLen);
    FinishIgnoresStrand(reference, interval, strand, MakePlan(interval, variants, anchor, fixedLen), fixedLen);
  }

  /** The result for a minus-strand interval is the reverse complement of the plus-strand one, and back. */
  lemma StrandSymmetry(reference: Reference, interval: Interval, variants: seq<Variant>, anchor: int, fixedLen: bool)
    requires WindowAvailable(reference, interval, variants, anchor, fixedLen)
    ensures WindowAvailable(reference, interval.(strand := "-"), variants, anchor, fixedLen)
    ensures WindowAvailable(reference, interval.(strand := "+"), variants, anchor, fixedLen)
    ensures Extracted(reference, interval.(strand := "-"), variants, anchor, fixedLen) ==
            ReverseComplement(Extracted(reference, interval.(strand := "+"), variants, anchor, fixedLen))
    ensures ReverseComplement(Extracted(reference, interval.(strand := "-"), variants, anchor, fixedLen)) ==
            Extracted(reference, interval.(strand := "+"), variants, anchor, fixedLen)
  {
    UnstrandedIgnoresStrand(reference, interval, "-", variants, anchor, fixedLen);
    UnstrandedIgnoresStrand(reference, interval, "+", variants, anchor, fixedLen);
    ReverseComplementInvolution(Unstranded(reference, interval, variants, anchor, fixedLen));
  }

  /** An anchor outside the interval behaves as the nearest interval edge. */
  lemma AnchorClamp(reference: Reference, interval: Interval, variants: seq<Variant>, anchor: int, fixedLen: bool)
    requires WindowAvailable(reference, interval, variants, anchor, fixedLen)
    ensures WindowAvailable(reference, interval, variants, ClampAnchor(anchor, interval), fixedLen)
    ensures Extracted(reference, interval, variants, ClampAnchor(anchor, interval), fixedLen) ==
            Extracted(reference, interval, variants, anchor, fixedLen)
  {
    PlanClamp(interval, variants, anchor, fixedLen);
  }

  lemma PlanClamp(interval: Interval, variants: seq<Variant>, anchor: int, fixedLen: bool)
    ensures MakePlan(interval, variants, ClampAnchor(anchor, interval), fixedLen) == MakePlan(interval, variants, anchor, fixedLen)
  {
    assert ClampAnchor(ClampAnchor(anchor, interval), interval) == ClampAnchor(anchor, interval);
  }

  lemma WithinKeepsClear(pairs: seq<Pair>, r: seq<Pair>, x: int)
    requires forall k :: 0 <= k < |pairs| ==> !Straddles(pairs[k], x)
    requires forall k :: 0 <= k < |r| ==> exists j :: 0 <= j < |pairs| && Within(r[k], pairs[j])
    ensures forall k :: 0 <= k < |r| ==> !Straddles(r[k], x)
  {
    forall k | 0 <= k < |r| ensures !Straddles(r[k], x) {
      var j :| 0 <= j < |pairs| && Within(r[k], pairs[j]);
      assert !Straddles(pairs[j], x);
    }
  }

  /**
   * What is left of an anchor-split pair `p` in the piece `q` after the edge splits: `q` lies
   * inside `p`; when `p` crosses the interval start, `q` begins exactly at the start (the part
   * before it is dropped); when `p` crosses the interval end, `q` stops exactly at the end (the
   * part after it is dropped); otherwise `q` is `p` itself.
   */
  predicate EdgeCut(q: Pair, p: Pair, interval: Interval) {
    && Within(q, p)
    && (Straddles(p, interval.start) ==> q.ref.start == interval.start)
    && (Straddles(p, interval.end) ==> q.ref.end == interval.end)
    && (!Straddles(p, interval.start) && !Straddles(p, interval.end) ==> q == p)
  }

  /** The two edge splits applied to one pair that is clear of the clamped anchor. */
  lemma EdgeCutStep(p: Pair, m: Pair, q: Pair, interval: Interval, a: int)
    requires NormalizedPair(p) && !Straddles(p, a) && a == ClampAnchor(a, interval)
    requires m in SplitPair(p, interval.start, Right) && q in SplitPair(m, interval.end, Left)
    ensures EdgeCut(q, p, interval)
  {
    if Straddles(p, interval.start) {
      SplitAtPoint(p, interval.start);
      assert m == RightPiece(p, interval.start - p.ref.start);
      assert !Straddles(p, interval.end);
      if Straddles(m, interval.end) {
        SplitAtPoint(m, interval.end);
      }
    } else {
      assert m == p;
      if Straddles(p, interval.end) {
        SplitAtPoint(p, interval.end);
      }
    }
  }

  /** Every piece after the edge splits is an `EdgeCut` of some pair after the anchor split. */
  lemma EdgeSplitsOrigin(pairs1: seq<Pair>, interval: Interval, a: int)
    requires AllNormalized(pairs1) && a == ClampAnchor(a, interval)
    requires forall k :: 0 <= k < |pairs1| ==> !Straddles(pairs1[k], a)
    ensures forall q :: q in SplitOverlapping(SplitOverlapping(pairs1, interval.start, Right), interval.end, Left) ==>
              exists p :: p in pairs1 && EdgeCut(q, p, interval)
  {
    var pairs2 := SplitOverlapping(pairs1, interval.start, Right);
    SplitOverlappingOrigin(pairs1, interval.start, Right);
    SplitOverlappingOrigin(pairs2, interval.end, Left);
    forall q | q in SplitOverlapping(pairs2, interval.end, Left)
      ensures exists p :: p in pairs1 && EdgeCut(q, p, interval)
    {
      var j :| 0 <= j < |pairs2| && q in SplitPair(pairs2[j], interval.end, Left);
      var m := pairs2[j];
      assert m in SplitOverlapping(pairs1, interval.start, Right);
      var i :| 0 <= i < |pairs1| && m in SplitPair(pairs1[i], interval.start, Right);
      EdgeCutStep(pairs1[i], m, q, interval, a);
    }
  }

  /** The one piece the two edge splits keep of a pair: its right piece at the start, then its left piece at the end. */
  function EdgePiece(p: Pair, interval: Interval): Pair {
    SplitPair(SplitPair(p, interval.start, Right)[0], interval.end, Left)[0]
  }

  /** A pair clear of the anchor: its `EdgePiece` is an `EdgeCut` of it. */
  lemma EdgePieceIsCut(p: Pair, interval: Interval, a: int)
    requires NormalizedPair(p) && !Straddles(p, a) && a == ClampAnchor(a, interval)
    ensures EdgeCut(EdgePiece(p, interval), p, interval)
  {
    EdgeCutStep(p, SplitPair(p, interval.start, Right)[0], EdgePiece(p, interval), interval, a);
  }

  /** The two edge splits replace each pair by its `EdgePiece`, in place. */
  lemma EdgeSplitsInPlace(pairs1: seq<Pair>, interval: Interval)
    ensures var r := SplitOverlapping(SplitOverlapping(pairs1, interval.start, Right), interval.end, Left);
            |r| == |pairs1| && forall k :: 0 <= k < |pairs1| ==> r[k] == EdgePiece(pairs1[k], interval)
  {
    var pairs2 := SplitOverlapping(pairs1, interval.start, Right);
    SplitOneSided(pairs1, interval.start, Right);
    SplitOneSided(pairs2, interval.end, Left);
  }

  /**
   * Every anchor-split piece of every input pair survives the edge splits as its `EdgePiece`,
   * and that piece is an `EdgeCut` of it.
   */
  lemma EdgeSplitsComplete(pairs0: seq<Pair>, interval: Interval, a: int)
    requires AllNormalized(pairs0) && a == ClampAnchor(a, interval)
    ensures var pairs1 := SplitOverlapping(pairs0, a, Both);
            var pairs3 := SplitOverlapping(SplitOverlapping(pairs1, interval.start, Right), interval.end, Left);
            forall j, p :: 0 <= j < |pairs0| && p in SplitPair(pairs0[j], a, Both) ==>
              EdgePiece(p, interval) in pairs3 && EdgeCut(EdgePiece(p, interval), p, interval)
  {
    var pairs1 := SplitOverlapping(pairs0, a, Both);
    SplitOverlappingComplete(pairs0, a, Both);
    SplitOverlappingClear(pairs0, a, Both);
    EdgePiecesMembers(pairs1, interval);
    EdgePiecesCut(pairs1, interval, a);
  }

  /** Each pair's `EdgePiece` is among the results of the two edge splits. */
  lemma EdgePiecesMembers(pairs1: seq<Pair>, interval: Interval)
    ensures var pairs3 := SplitOverlapping(SplitOverlapping(pairs1, interval.start, Right), interval.end, Left);
            forall p :: p in pairs1 ==> EdgePiece(p, interval) in pairs3
  {
    var pairs3 := SplitOverlapping(SplitOverlapping(pairs1, interval.start, Right), interval.end, Left);
    EdgeSplitsInPlace(pairs1, interval);
    forall p | p in pairs1 ensures EdgePiece(p, interval) in pairs3 {
      var k :| 0 <= k < |pairs1| && pairs1[k] == p;
      assert pairs3[k] == EdgePiece(p, interval);
    }
  }

  /** Pairs clear of the anchor: each `EdgePiece` is an `EdgeCut` of its pair. */
  lemma EdgePiecesCut(pairs1: seq<Pair>, interval: Interval, a: int)
    requires AllNormalized(pairs1) && a == ClampAnchor(a, interval)
    requires forall k :: 0 <= k < |pairs1| ==> !Straddles(pairs1[k], a)
    ensures forall p :: p in pairs1 ==> EdgeCut(EdgePiece(p, interval), p, interval)
  {
    forall p | p in pairs1 ensures EdgeCut(EdgePiece(p, interval), p, interval) {
      var k :| 0 <= k < |pairs1| && pairs1[k] == p;
      EdgePieceIsCut(p, interval, a);
    }
  }

  /** Without `fixed_len`, the plan's two groups hold exactly the pairs step 1 leaves. */
  lemma VariablePlanMembers(interval: Interval, variants: seq<Variant>, anchor: int)
    ensures var plan := MakePlan(interval, variants, anchor, false);
            plan.anchor == ClampAnchor(anchor, interval) &&
            forall q :: q in plan.ups + plan.downs <==> q in SplitAll(VariantToSequence(variants), interval, plan.anchor, false)
  {
    var a := ClampAnchor(anchor, interval);
    PartitionMembers(SplitAll(VariantToSequence(variants), interval, a, false), a);
  }

  /** After the three splits of step 1, no pair crosses the anchor or an interval edge. */
  lemma SplitAllClear(pairs0: seq<Pair>, interval: Interval, a: int)
    requires AllNormalized(pairs0)
    ensures var pairs3 := SplitAll(pairs0, interval, a, false);
            forall k :: 0 <= k < |pairs3| ==>
              !Straddles(pairs3[k], a) && !Straddles(pairs3[k], interval.start) && !Straddles(pairs3[k], interval.end)
  {
    SplitOverlappingClear(pairs0, a, Both);
    var pairs1 := SplitOverlapping(pairs0, a, Both);
    SplitOverlappingClear(pairs1, interval.start, Right);
    var pairs2 := SplitOverlapping(pairs1, interval.start, Right);
    WithinKeepsClear(pairs1, pairs2, a);
    SplitOverlappingClear(pairs2, interval.end, Left);
    var pairs3 := SplitOverlapping(pairs2, interval.end, Left);
    WithinKeepsClear(pairs2, pairs3, a);
    WithinKeepsClear(pairs2, pairs3, interval.start);
  }

  /** No piece in the variable-length plan crosses the anchor or an interval edge. */
  lemma VariableLengthClear(interval: Interval, variants: seq<Variant>, anchor: int)
    ensures var plan := MakePlan(interval, variants, anchor, false);
            forall q :: q in plan.ups + plan.downs ==>
              !Straddles(q, plan.anchor) && !Straddles(q, interval.start) && !Straddles(q, interval.end)
  {
    var a := ClampAnchor(anchor, interval);
    var pairs3 := SplitAll(VariantToSequence(variants), interval, a, false);
    SplitAllClear(VariantToSequence(variants), interval, a);
    VariablePlanMembers(interval, variants, anchor);
    var plan := MakePlan(interval, variants, anchor, false);
    forall q | q in plan.ups + plan.downs
      ensures !Straddles(q, plan.anchor) && !Straddles(q, interval.start) && !Straddles(q, interval.end)
    {
      assert q in pairs3;
    }
  }

  /** Every piece in the variable-length plan is an edge cut of a pair the anchor split left. */
  lemma VariableLengthOrigin(interval: Interval, variants: seq<Variant>, anchor: int)
    ensures var plan := MakePlan(interval, variants, anchor, false);
            var pairs1 := SplitOverlapping(VariantToSequence(variants), plan.anchor, Both);
            forall q :: q in plan.ups + plan.downs ==> exists p :: p in pairs1 && EdgeCut(q, p, interval)
  {
    var a := ClampAnchor(anchor, interval);
    var pairs0 := VariantToSequence(variants);
    SplitOverlappingClear(pairs0, a, Both);
    EdgeSplitsOrigin(SplitOverlapping(pairs0, a, Both), interval, a);
    VariablePlanMembers(interval, variants, anchor);
  }

  /** Every piece the anchor split leaves reaches the variable-length plan as its edge piece. */
  lemma VariableLengthComplete(interval: Interval, variants: seq<Variant>, anchor: int)
    ensures var plan := MakePlan(interval, variants, anchor, false);
            var pairs0 := VariantToSequence(variants);
            forall j, p :: 0 <= j < |pairs0| && p in SplitPair(pairs0[j], plan.anchor, Both) ==>
              EdgePiece(p, interval) in plan.ups + plan.downs && EdgeCut(EdgePiece(p, interval), p, interval)
  {
    var a := ClampAnchor(anchor, interval);
    EdgeSplitsComplete(VariantToSequence(variants), interval, a);
    VariablePlanMembers(interval, variants, anchor);
  }

  /**
   * Without `fixed_len`, no pair that reaches the builders straddles the anchor or either
   * interval edge, and each is what the edge splits leave of a pair after the anchor split:
   * the material of that pair before `interval.start` or after `interval.end` is dropped.
   */
  lemma VariableLengthSplits(interval: Interval, variants: seq<Variant>, anchor: int)
    ensures var plan := MakePlan(interval, variants, anchor, false);
            forall q :: q in plan.ups + plan.downs ==>
              !Straddles(q, plan.anchor) && !Straddles(q, interval.start) && !Straddles(q, interval.end)
    ensures var plan := MakePlan(interval, variants, anchor, false);
            var pairs1 := SplitOverlapping(VariantToSequence(variants), plan.anchor, Both);
            forall q :: q in plan.ups + plan.downs ==> exists p :: p in pairs1 && EdgeCut(q, p, interval)
    ensures var plan := MakePlan(interval, variants, anchor, false);
            var pairs0 := VariantToSequence(variants);
            forall j, p :: 0 <= j < |pairs0| && p in SplitPair(pairs0[j], plan.anchor, Both) ==>
              EdgePiece(p, interval) in plan.ups + plan.downs && EdgeCut(EdgePiece(p, interval), p, interval)
  {
    VariableLengthClear(interval, variants, anchor);
    VariableLengthOrigin(interval, variants, anchor);
    VariableLengthComplete(interval, variants, anchor);
  }


  // ---------------------------------------------------- one variant applied

  /** The upstream segments of one pair: the gap up to it, its alt, the gap to `iend`. */
  lemma UpOneSegments(p: Pair, prev: int, iend: int)
    requires p.ref.start < iend
    ensures UpSegments([p], prev, iend) == [Placeholder(prev, p.ref.start), Literal(p.alt), Placeholder(p.ref.end, iend)]
  {
    assert [p][1..] == [];
  }

  /** The downstream segments of one pair, reversed into reading order. */
  lemma DownOneSegments(p: Pair, prev: int, istart: int)
    requires istart < p.ref.end
    ensures Reversed(DownSegments([p], prev, istart)) ==
            [Placeholder(istart, p.ref.start), Literal(p.alt), Placeholder(p.ref.end, prev)]
  {
    assert [p][1..] == [];
    ReversedThree(Placeholder(p.ref.end, prev), Literal(p.alt), Placeholder(istart, p.ref.start));
  }

  /** One pair upstream of `prev`: the gap up to the pair, its alt, then the window's rest. */
  lemma UpOneText(p: Pair, prev: int, w: Seq)
    requires Normalized(w) && w.start <= prev <= p.ref.start < p.ref.end <= w.end
    ensures ResolvedText(UpSegments([p], prev, w.end), w) ==
            w.text[prev - w.start .. p.ref.start - w.start] + p.alt.text + w.text[p.ref.end - w.start .. w.end - w.start]
  {
    UpOneSegments(p, prev, w.end);
    GapLitGapText(prev, p.ref.start, p.alt, p.ref.end, w.end, w);
  }

  /** One pair downstream of `prev`: the window up to the pair, its alt, then the gap to `prev`. */
  lemma DownOneText(p: Pair, prev: int, w: Seq)
    requires Normalized(w) && w.start <= p.ref.start < p.ref.end <= prev <= w.end
    ensures ResolvedText(Reversed(DownSegments([p], prev, w.start)), w) ==
            w.text[.. p.ref.start - w.start] + p.alt.text + w.text[p.ref.end - w.start .. prev - w.start]
  {
    DownOneSegments(p, prev, w.start);
    GapLitGapText(w.start, p.ref.start, p.alt, p.ref.end, prev, w);
    assert w.text[0 .. p.ref.start - w.start] == w.text[.. p.ref.start - w.start];
  }

  lemma ReversedThree<T>(x: T, y: T, z: T)
    ensures Reversed([x, y, z]) == [z, y, x]
  {
    assert [x, y, z][1..] == [y, z];
    assert [y, z][1..] == [z];
    assert [z][1..] == [];
    assert Reversed([z]) == [z];
    assert Reversed([y, z]) == [z, y];
  }

  lemma FilterSingle(p: Pair, a: int)
    ensures AtOrAfter([p], a) == if p.ref.start >= a then [p] else []
    ensures Before([p], a) == if p.ref.start < a then [p] else []
  {
    assert [p][1..] == [];
  }

  lemma FilterTwo(l: Pair, r: Pair, a: int)
    requires l.ref.start < a <= r.ref.start
    ensures AtOrAfter([l, r], a) == [r] && Before([l, r], a) == [l]
  {
    assert [l, r][1..] == [r];
    FilterSingle(r, a);
  }

  /** A single pair after step 1: cut in two at the anchor when it crosses it, whole otherwise. */
  function OnePieces(p: Pair, a: int): seq<Pair> {
    if Straddles(p, a) then [LeftPiece(p, a - p.ref.start), RightPiece(p, a - p.ref.start)] else [p]
  }

  /**
   * Where the plan puts a single pair: cut at the anchor when it crosses it, its left piece
   * downstream and its right piece upstream; otherwise whole, on the side its start is on.
   */
  predicate OnePairPlaced(p: Pair, a: int, downs: seq<Pair>, ups: seq<Pair>) {
    && (Straddles(p, a) ==> downs == [LeftPiece(p, a - p.ref.start)] && ups == [RightPiece(p, a - p.ref.start)])
    && (!Straddles(p, a) && a <= p.ref.start ==> ups == [p] && downs == [])
    && (!Straddles(p, a) && p.ref.start < a ==> ups == [] && downs == [p])
  }

  /** What is on each side of the anchor when the only pair is `p`, cut or not. */
  lemma OneSplitPartition(p: Pair, a: int)
    requires NormalizedPair(p) && p.ref.start < p.ref.end
    ensures OnePairPlaced(p, a, Downstream(OnePieces(p, a), a), Upstream(OnePieces(p, a), a))
  {
    var empty: seq<Pair> := [];
    assert StableSort(empty, StartKey) == [] && StableSort(empty, DescendingKey) == [];
    if Straddles(p, a) {
      var l, r := LeftPiece(p, a - p.ref.start), RightPiece(p, a - p.ref.start);
      SplitAtPoint(p, a);
      FilterTwo(l, r, a);
      SortSingle(r, StartKey);
      SortSingle(l, DescendingKey);
    } else {
      FilterSingle(p, a);
      SortSingle(p, StartKey);
      SortSingle(p, DescendingKey);
    }
  }

  /** Step 1 for a single pair inside the interval: only the anchor can cut it. */
  lemma OneSplit(p: Pair, interval: Interval, a: int)
    requires NormalizedPair(p) && interval.start <= p.ref.start < p.ref.end <= interval.end
    requires interval.start <= a <= interval.end
    ensures SplitAll([p], interval, a, false) == OnePieces(p, a)
  {
    SplitOverlappingSingle(p, a, Both);
    var pairs1 := SplitOverlapping([p], a, Both);
    if Straddles(p, a) {
      SplitAtPoint(p, a);
      assert pairs1 == [LeftPiece(p, a - p.ref.start), RightPiece(p, a - p.ref.start)];
    } else {
      assert pairs1 == [p];
    }
    assert forall k :: 0 <= k < |pairs1| ==> !Straddles(pairs1[k], interval.start);
    var pairs2 := SplitOverlapping(pairs1, interval.start, Right);
    assert pairs2 == pairs1;
    assert forall k :: 0 <= k < |pairs2| ==> !Straddles(pairs2[k], interval.end);
  }

  /**
   * The plan for one variant inside the interval, without `fixed_len`: the window is the
   * interval, and the variant is placed around the clamped anchor as `OnePairPlaced` says.
   */
  lemma OnePlan(interval: Interval, v: Variant, anchor: int)
    requires |v.ref| > 0 && interval.start <= v.Start() && v.Start() + |v.ref| <= interval.end
    ensures var plan := MakePlan(interval, [v], anchor, false);
            var p := VariantToSequence([v])[0];
            var a := plan.anchor;
            && plan.istart == interval.start && plan.iend == interval.end
            && interval.start <= a <= interval.end
            && OnePairPlaced(p, a, plan.downs, plan.ups)
  {
    var a := ClampAnchor(anchor, interval);
    var p := VariantToSequence([v])[0];
    assert VariantToSequence([v]) == [p];
    OneSplit(p, interval, a);
    OneSplitPartition(p, a);
  }

  /** Joining the reference text around a substituted stretch. */
  lemma RefTextJoin(reference: Reference, a: int, b: int, c: int)
    requires a <= b <= c && Covers(reference, a, c)
    ensures RefText(reference, a, c)[..b - a] == RefText(reference, a, b)
    ensures RefText(reference, a, c)[b - a..] == RefText(reference, b, c)
  {
  }

  /** The window with `p`'s reference span replaced by its alt. */
  function Substituted(w: Seq, p: Pair): string
    requires w.start <= p.ref.start <= p.ref.end <= w.start + |w.text|
  {
    w.text[..p.ref.start - w.start] + p.alt.text + w.text[p.ref.end - w.start..]
  }

  /** Text before the anchor, then text from the anchor on with `p` applied: the window with `p` applied. */
  lemma JoinBefore(d: string, u: string, w: Seq, p: Pair, a: int)
    requires Normalized(w) && w.start <= a <= p.ref.start <= p.ref.end <= w.end
    requires d == w.text[..a - w.start]
    requires u == w.text[a - w.start .. p.ref.start - w.start] + p.alt.text + w.text[p.ref.end - w.start .. w.end - w.start]
    ensures d + u == Substituted(w, p)
  {
    var t, i, j, k := w.text, a - w.start, p.ref.start - w.start, p.ref.end - w.start;
    assert t[..i] + t[i..j] == t[..j];
    assert t[k..w.end - w.start] == t[k..];
  }

  /** The mirror image of `JoinBefore`, for a pair downstream of the anchor. */
  lemma JoinAfter(d: string, u: string, w: Seq, p: Pair, a: int)
    requires w.start <= p.ref.start <= p.ref.end <= a <= w.start + |w.text|
    requires d == w.text[..p.ref.start - w.start] + p.alt.text + w.text[p.ref.end - w.start .. a - w.start]
    requires u == w.text[a - w.start ..]
    ensures d + u == Substituted(w, p)
  {
    var t, k, i := w.text, p.ref.end - w.start, a - w.start;
    assert t[k..i] + t[i..] == t[k..];
  }

  /** The two halves of a pair cut at the anchor, with nothing of the window between them. */
  lemma JoinCut(d: string, u: string, w: Seq, p: Pair, l: Pair, r: Pair, a: int)
    requires Normalized(w) && w.start <= l.ref.start && r.ref.end <= w.end
    requires l.ref.start == p.ref.start && l.ref.start <= l.ref.end == a == r.ref.start <= r.ref.end == p.ref.end
    requires l.alt.text + r.alt.text == p.alt.text
    requires d == w.text[..l.ref.start - w.start] + l.alt.text + w.text[l.ref.end - w.start .. a - w.start]
    requires u == w.text[a - w.start .. r.ref.start - w.start] + r.alt.text + w.text[r.ref.end - w.start .. w.end - w.start]
    ensures d + u == Substituted(w, p)
  {
    var t, i, j, k := w.text, a - w.start, p.ref.start - w.start, p.ref.end - w.start;
    assert d == t[..j] + l.alt.text;
    assert u == r.alt.text + t[k..];
  }


  /** The two pieces of a pair cut by the anchor meet there and share out its alt. */
  lemma CutPieces(p: Pair, a: int)
    requires NormalizedPair(p) && Straddles(p, a)
    ensures var l, r := LeftPiece(p, a - p.ref.start), RightPiece(p, a - p.ref.start);
            && l.ref.start == p.ref.start && l.ref.end == a == r.ref.start && r.ref.end == p.ref.end
            && l.alt.text + r.alt.text == p.alt.text
  {
    SplitAtPoint(p, a);
  }

  /**
   * Two pieces meeting at the anchor that together are `p`: the left one downstream and the
   * right one upstream resolve to the window with `p` applied.
   */
  lemma PiecesText(l: Pair, r: Pair, p: Pair, a: int, w: Seq)
    requires Normalized(w) && w.start <= l.ref.start && r.ref.end <= w.end
    requires l.ref.start == p.ref.start && l.ref.start < l.ref.end == a == r.ref.start < r.ref.end == p.ref.end
    requires l.alt.text + r.alt.text == p.alt.text
    ensures ResolvedText(Reversed(DownSegments([l], a, w.start)), w) + ResolvedText(UpSegments([r], a, w.end), w) ==
            Substituted(w, p)
  {
    DownOneText(l, a, w);
    UpOneText(r, a, w);
    JoinCut(ResolvedText(Reversed(DownSegments([l], a, w.start)), w), ResolvedText(UpSegments([r], a, w.end), w),
            w, p, l, r, a);
  }

  /** A pair cut by the anchor: its left piece downstream, its right piece upstream. */
  lemma CutPairText(p: Pair, a: int, w: Seq)
    requires Normalized(w) && NormalizedPair(p) && Straddles(p, a)
    requires w.start <= p.ref.start && p.ref.end <= w.end
    ensures var l, r := LeftPiece(p, a - p.ref.start), RightPiece(p, a - p.ref.start);
            ResolvedText(Reversed(DownSegments([l], a, w.start)), w) + ResolvedText(UpSegments([r], a, w.end), w) ==
            Substituted(w, p)
  {
    var l, r := LeftPiece(p, a - p.ref.start), RightPiece(p, a - p.ref.start);
    CutPieces(p, a);
    PiecesText(l, r, p, a, w);
  }

  /** A pair at or after the anchor: nothing downstream, the pair upstream. */
  lemma UpPairText(p: Pair, a: int, w: Seq)
    requires Normalized(w) && w.start <= a <= p.ref.start < p.ref.end <= w.end
    ensures ResolvedText(Reversed(DownSegments([], a, w.start)), w) + ResolvedText(UpSegments([p], a, w.end), w) ==
            Substituted(w, p)
  {
    EmptyDownText(w, a);
    UpOneText(p, a, w);
    JoinBefore(ResolvedText(Reversed(DownSegments([], a, w.start)), w), ResolvedText(UpSegments([p], a, w.end), w), w, p, a);
  }

  /** A pair before the anchor: the pair downstream, nothing upstream. */
  lemma DownPairText(p: Pair, a: int, w: Seq)
    requires Normalized(w) && w.start <= p.ref.start < p.ref.end <= a <= w.end
    ensures ResolvedText(Reversed(DownSegments([p], a, w.start)), w) + ResolvedText(UpSegments([], a, w.end), w) ==
            Substituted(w, p)
  {
    DownOneText(p, a, w);
    EmptyUpText(w, a);
    JoinAfter(ResolvedText(Reversed(DownSegments([p], a, w.start)), w), ResolvedText(UpSegments([], a, w.end), w), w, p, a);
  }

  /**
   * The text the plan's two halves resolve to, for a single pair: the window with the pair
   * applied, wherever the anchor falls.
   */
  lemma OnePairText(p: Pair, a: int, w: Seq, downs: seq<Pair>, ups: seq<Pair>)
    requires Normalized(w) && NormalizedPair(p)
    requires w.start <= a <= w.end && w.start <= p.ref.start < p.ref.end <= w.end
    requires OnePairPlaced(p, a, downs, ups)
    ensures ResolvedText(Reversed(DownSegments(downs, a, w.start)), w) + ResolvedText(UpSegments(ups, a, w.end), w) ==
            Substituted(w, p)
  {
    if Straddles(p, a) {
      CutPairText(p, a, w);
    } else if a <= p.ref.start {
      UpPairText(p, a, w);
    } else {
      DownPairText(p, a, w);
    }
  }

  /** The fetched window with a pair applied, in reference coordinates. */
  lemma SubstitutedWindow(reference: Reference, a: int, b: int, p: Pair)
    requires Covers(reference, a, b) && a <= p.ref.start <= p.ref.end <= b
    ensures Substituted(Fetch(reference, a, b), p) ==
            RefText(reference, a, p.ref.start) + p.alt.text + RefText(reference, p.ref.end, b)
  {
    RefTextJoin(reference, a, p.ref.start, b);
    RefTextJoin(reference, a, p.ref.end, b);
  }

  /** Without `fixed_len`, the window is the interval and the result joins the two resolved halves. */
  lemma UnstrandedVariable(reference: Reference, interval: Interval, variants: seq<Variant>, anchor: int)
    requires WindowAvailable(reference, interval, variants, anchor, false)
    ensures var plan := MakePlan(interval, variants, anchor, false);
            var w := Fetch(reference, interval.start, interval.end);
            Unstranded(reference, interval, variants, anchor, false) ==
            ResolvedText(Reversed(DownSegments(plan.downs, plan.anchor, w.start)), w) +
            ResolvedText(UpSegments(plan.ups, plan.anchor, w.end), w)
  {
  }

  /** Without `fixed_len`, the plan's two halves for one variant resolve to the window with it applied. */
  lemma OnePlanText(reference: Reference, interval: Interval, v: Variant, anchor: int)
    requires Covers(reference, interval.start, interval.end)
    requires |v.ref| > 0 && interval.start <= v.Start() && v.Start() + |v.ref| <= interval.end
    ensures var plan := MakePlan(interval, [v], anchor, false);
            var w := Fetch(reference, interval.start, interval.end);
            ResolvedText(Reversed(DownSegments(plan.downs, plan.anchor, w.start)), w) +
            ResolvedText(UpSegments(plan.ups, plan.anchor, w.end), w) ==
            Substituted(w, VariantToSequence([v])[0])
  {
    var plan := MakePlan(interval, [v], anchor, false);
    var p := VariantToSequence([v])[0];
    assert NormalizedPair(p) && p.ref.start == v.Start() && p.ref.end == v.Start() + |v.ref|;
    OnePlan(interval, v, anchor);
    OnePairText(p, plan.anchor, Fetch(reference, interval.start, interval.end), plan.downs, plan.ups);
  }

  /** The pair `variant_to_sequence` makes from a single variant. */
  lemma OnePairOf(v: Variant)
    ensures var p := VariantToSequence([v])[0];
            p.ref.start == v.Start() && p.ref.end == v.Start() + |v.ref| && p.alt.text == v.alt
  {
  }

  /** The fetched interval with the pair of `v` applied is the interval's reference text with REF replaced by ALT. */
  lemma AppliedWindow(reference: Reference, interval: Interval, v: Variant)
    requires Covers(reference, interval.start, interval.end)
    requires interval.start <= v.Start() && v.Start() + |v.ref| <= interval.end
    ensures Substituted(Fetch(reference, interval.start, interval.end), VariantToSequence([v])[0]) ==
            RefText(reference, interval.start, v.Start()) + v.alt + RefText(reference, v.Start() + |v.ref|, interval.end)
  {
    OnePairOf(v);
    SubstitutedWindow(reference, interval.start, interval.end, VariantToSequence([v])[0]);
  }

  /**
   * `extract` without `fixed_len` applies a single variant: for any anchor, the assembled
   * string is the reference text of the interval with the variant's REF replaced by its ALT,
   * whether the anchor lies before, after or inside the variant.
   */
  lemma OneVariantUnstranded(reference: Reference, interval: Interval, v: Variant, anchor: int)
    requires Covers(reference, interval.start, interval.end)
    requires |v.ref| > 0 && interval.start <= v.Start() && v.Start() + |v.ref| <= interval.end
    ensures WindowAvailable(reference, interval, [v], anchor, false)
    ensures Unstranded(reference, interval, [v], anchor, false) ==
            RefText(reference, interval.start, v.Start()) + v.alt + RefText(reference, v.Start() + |v.ref|, interval.end)
  {
    OnePlan(interval, v, anchor);
    OnePlanText(reference, interval, v, anchor);
    UnstrandedVariable(reference, interval, [v], anchor);
    AppliedWindow(reference, interval, v);
  }

  /** The same for the string `extract` returns: the applied text, reverse-complemented on `-`. */
  lemma SingleVariantApplied(reference: Reference, interval: Interval, v: Variant, anchor: int)
    requires Covers(reference, interval.start, interval.end)
    requires |v.ref| > 0 && interval.start <= v.Start() && v.Start() + |v.ref| <= interval.end
    ensures WindowAvailable(reference, interval, [v], anchor, false)
    ensures Extracted(reference, interval, [v], anchor, false) ==
            Stranded(RefText(reference, interval.start, v.Start()) + v.alt + RefText(reference, v.Start() + |v.ref|, interval.end),
                     interval.strand)
  {
    OneVariantUnstranded(reference, interval, v, anchor);
  }

  // ------------------------------------------------------------------ method

  /**
   * `extract(interval, variants, anchor, fixed_len)`, built from the builder objects as the
   * source builds it.
   */
  method Extract(reference: Reference, interval: Interval, variants: seq<Variant>, anchor: int, fixedLen: bool)
    returns (r: string)
    requires WindowAvailable(reference, interval, variants, anchor, fixedLen)
    ensures r == Extracted(reference, interval, variants, anchor, fixedLen)
    ensures fixedLen && interval.start <= interval.end ==> |r| == interval.end - interval.start
    ensures variants == [] ==>
              Covers(reference, interval.start, interval.end) &&
              r == Stranded(RefText(reference, interval.start, interval.end), interval.strand)
  {
    ghost var plan := MakePlan(interval, variants, anchor, fixedLen);
    var a := ClampAnchor(anchor, interval);
    var pairs := VariantToSequence(variants);
    pairs := SplitOverlapping(pairs, a, Both);
    if !fixedLen {
      pairs := SplitOverlapping(pairs, interval.start, Right);
      pairs := SplitOverlapping(pairs, interval.end, Left);
    }
    var ups := Upstream(pairs, a);
    var downs := Downstream(pairs, a);
    var istart, iend;
    if fixedLen {
      istart, iend := UpdatedInterval(interval, ups, downs);
    } else {
      istart, iend := interval.start, interval.end;
    }
    assert plan == Plan(a, ups, downs, istart, iend);

    var downSb := DownstreamBuilder(downs, a, istart);
    var upSb := UpstreamBuilder(ups, a, iend);

    var window := Fetch(reference, istart, iend);
    upSb.Restore(window);
    downSb.Restore(window);

    var downRes := downSb.Concat();
    var upRes := upSb.Concat();
    var downStr, upStr := downRes.value, upRes.value;

    if fixedLen {
      var cut := CutToFixLen(downStr, upStr, interval, a);
      downStr, upStr := cut.0, cut.1;
    }
    r := downStr + upStr;
    if interval.strand == "-" {
      r := ReverseComplement(r);
    }

    if fixedLen && interval.start <= interval.end {
      ExtractFixedLength(reference, interval, variants, anchor);
    }
    if variants == [] {
      ExtractIdentity(reference, interval, anchor, fixedLen);
    }
  }
}
