# kipoiseq variant-sequence extraction, modelled in Dafny

This project models the variant-application core of kipoiseq's
`kipoiseq/extractors/vcf_seq.py` and proves properties of the model.

`VariantSeqExtractor.extract` takes an interval, an anchor and a list of VCF variants. It
returns the reference sequence of the interval with the variants applied. Each variant becomes a
(ref, alt) pair of pyfaidx `Sequence`s. Pairs that straddle the anchor are cut there, and in
variable-length mode they are also cut at the interval edges. The pairs at or after the anchor
go upstream, sorted by start; the others go downstream, sorted by descending start. In
fixed-length mode the fetch window is widened by the bases that deletions remove. Two
`IntervalSeqBuilder`s then walk outward from the anchor and record reference gaps
(placeholders) and alt literals. The placeholders are resolved against one fetched window, and
the texts are joined. In fixed-length mode the result is cut back to the interval's length.
Minus-strand intervals get the reverse complement.

The model also covers some smaller pieces from the same file:

- the variant id string and its parse;
- the genotype rule and the per-sample map of one variant;
- the lookup of a variant by id;
- the per-sample de-duplication of `fetch_samples_with_variants`;
- the count-range filter of `filter_by_num`.

Modules:

- `Wrappers`: `Option`, `Result` and the Python exception kinds the model raises.
- `PyText`: Python string built-ins: slicing with index clamping, `split`, `str(int)`,
  `int(str)` and `[::-1]`.
- `Sorting`: a stable sort by integer key, standing for Python's `sorted`.
- `Genomics`: the `Sequence`, `Interval`, variant and reference records, and the base complement.
- `SeqBuilder`: the `IntervalSeqBuilder` class, a list of segments updated in place.
- `Extractor`: the stages of `extract`. Builders and `_updated_interval` are methods with loops.
- `Extraction`: the plan `extract` makes, the string it returns, the `Extract` method, and its
  end-to-end properties.
- `MultiSample`: variant ids, genotypes, `get_samples`, `get_variant_by_id` and
  `fetch_samples_with_variants`. The last of these is a method with nested loops over two maps.
- `VariantQuery`: `NumberVariantQuery` and `_filter_all`.

How the inputs are modelled:

- The reference is a string with the coordinate its first base sits at. `_fetch` slices it.
  `Extract` requires the reference to hold the whole widened window. This is `WindowAvailable`.
- A variant carries CHROM, POS, REF, the first ALT allele and the genotype codes. Its 0-based
  start is `POS - 1`.
- A pyfaidx `Sequence` is `(text, start, end)`. `s[a:b]` slices the text with Python's clamping
  and shifts the coordinates by the clamped bounds.
- A pybedtools `Interval` is `(chrom, start, end, strand)`. A builder placeholder is
  `(start, end)`.

`variant_to_id` (`kipoiseq/extractors/vcf_seq.py:12-14`) is not injective when a field
contains `:`. `MultiSample.IdCollision` gives two such variants that share one id. An
apostrophe in ALT does not make two ids collide; it breaks only the parse back.
`MultiSample.IdRoundTrip` and `MultiSample.IdInjective` are proved for fields free of both
characters.

The fixed-length theorem `Extraction.ExtractFixedLength` needs only two things: the reference
holds the widened window, and `interval.start <= interval.end`. It does not assume that
variants on one side are disjoint. Overlapping pairs make some gaps negative, and the builder
then restores those gaps as empty. The widened window still leaves enough text on each side
for the cut.

## Model

| member | source | states |
|---|---|---|
| PyText.PySlice | kipoiseq/extractors/vcf_seq.py:541-542 | a Python slice is the plain subsequence for in-range bounds; its length is the clamped bounds' difference, never negative |
| PyText.Split | kipoiseq/extractors/vcf_seq.py:282 | `split` on one character yields at least one part, and no part holds the separator |
| PyText.IntToStr | kipoiseq/extractors/vcf_seq.py:13 | `str(pos)` is non-empty and holds neither `:` nor `'`, so it cannot break the id format |
| PyText.IntToStrRoundTrip | kipoiseq/extractors/vcf_seq.py:283 | `int(str(i)) == i` for every integer, negative ones included |
| PyText.Reversed | kipoiseq/extractors/vcf_seq.py:457 | `[::-1]` keeps the length; ReversedAt states that position `k` holds the input's position `len - 1 - k` |
| PyText.ParseInt | kipoiseq/extractors/vcf_seq.py:283 | `int(s)` succeeds exactly on a non-empty digit string or a sign followed by one, with the digits' decimal value, negated after a `-`, and raises `ValueError` otherwise; IntToStrRoundTrip gives `int(str(i)) == i` |
| PyText.ReversedInvolution | kipoiseq/extractors/vcf_seq.py:457 | `[::-1]` applied twice gives back the input |
| Sorting.StableSort | kipoiseq/extractors/vcf_seq.py:416-422 | `sorted` by an integer key, as insertion of each element before the first one with a key not smaller; its properties are StableSortPermutes and StableSortCorrect |
| Sorting.StableSortPermutes | kipoiseq/extractors/vcf_seq.py:416-422 | `sorted` returns a permutation of its input (multiset equality) |
| Sorting.WithKeyAppend | kipoiseq/extractors/vcf_seq.py:416-422 | taking the elements with one key distributes over concatenation |
| Sorting.StableSortCorrect | kipoiseq/extractors/vcf_seq.py:416-422 | `sorted` orders by key, and for every key the elements with that key keep their input order (stability) |
| Genomics.SliceSeq | kipoiseq/extractors/vcf_seq.py:482-484 | slicing a `Sequence` slices its text and shifts its coordinates by the bounds; a normalized sequence stays normalized |
| Genomics.SliceHalves | kipoiseq/extractors/vcf_seq.py:482-484 | `s[:mid]` and `s[mid:]` cut the text at `min(mid, len)` and shift the coordinates by that amount |
| Genomics.RefText | kipoiseq/extractors/vcf_seq.py:533-536 | the reference text of `[a, b)` has length `b - a` |
| Genomics.Fetch | kipoiseq/extractors/vcf_seq.py:533-536 | `_fetch` returns a normalized `Sequence` with coordinates `[istart, iend)` over the reference text of that window |
| Genomics.ComplementInvolution | kipoiseq/extractors/vcf_seq.py:457 | the base-complement map (A/T, C/G and the IUPAC pairs R/Y, K/M, B/V, D/H, in both cases) undoes itself |
| Genomics.ComplementAll | kipoiseq/extractors/vcf_seq.py:457 | `complement` maps each position through the base-complement map and keeps the length |
| Genomics.ReverseComplement | kipoiseq/extractors/vcf_seq.py:457 | `complement(seq)[::-1]` keeps the length; ReverseComplementAt and ReverseComplementInvolution state its contents |
| Genomics.ReverseComplementAt | kipoiseq/extractors/vcf_seq.py:457 | position `k` of `complement(s)[::-1]` is the complement of position `len(s) - 1 - k` |
| Genomics.ReverseComplementInvolution | kipoiseq/extractors/vcf_seq.py:457 | the reverse complement of the reverse complement is the input |
| Genomics.Stranded | kipoiseq/extractors/vcf_seq.py:456-457 | the strand step keeps the length and changes nothing unless the strand is `-` |
| SeqBuilder.RestoreSegment | kipoiseq/extractors/vcf_seq.py:346-353 | a restored element is a literal; a literal is untouched; a placeholder inside the window becomes the window slice at offset `start - window.start` of length `max(0, end - start)` |
| SeqBuilder.RestoreAll | kipoiseq/extractors/vcf_seq.py:346-353 | restoring keeps the list length, leaves no placeholder, and restores each element on its own |
| SeqBuilder.RestoreAllReversed | kipoiseq/extractors/vcf_seq.py:442-443 | restoring a reversed builder gives the reverse of the restored builder |
| SeqBuilder.TextsAppend | kipoiseq/extractors/vcf_seq.py:355-369 | the join of two lists of texts is the join of the first followed by the join of the second |
| SeqBuilder.TextsReversedLength | kipoiseq/extractors/vcf_seq.py:515 | reversing the segment list keeps the total length of the joined text |
| SeqBuilder.IntervalSeqBuilder.constructor | kipoiseq/extractors/vcf_seq.py:505 | a new builder is empty |
| SeqBuilder.IntervalSeqBuilder.Append | kipoiseq/extractors/vcf_seq.py:511-512 | `append` adds the segment at the end and changes nothing else |
| SeqBuilder.IntervalSeqBuilder.Reverse | kipoiseq/extractors/vcf_seq.py:515 | `reverse` reverses the list in place |
| SeqBuilder.IntervalSeqBuilder.Restore | kipoiseq/extractors/vcf_seq.py:340-353 | `restore` updates the list in place to the restored list: each placeholder becomes its window slice, and literals and length are unchanged |
| SeqBuilder.IntervalSeqBuilder.Concat | kipoiseq/extractors/vcf_seq.py:355-369 | `concat` succeeds exactly when every element is resolved, and then returns the in-order join of the texts; otherwise it raises `TypeError` |
| Extractor.VariantToSequence | kipoiseq/extractors/vcf_seq.py:461-472 | one normalized pair per variant, in order: REF and ALT[0] texts, both starting at `POS - 1` |
| Extractor.SplitPair | kipoiseq/extractors/vcf_seq.py:478-486 | a straddling pair yields `(ref[:mid], alt[:mid])` for `left`, `(ref[mid:], alt[mid:])` for `right`, and both, left first, for `both`; any other pair passes through unchanged |
| Extractor.SplitAtPoint | kipoiseq/extractors/vcf_seq.py:479-484 | a straddling pair is cut at `mid = point - ref.start`: the ref pieces are `ref[:mid]` on `[ref.start, point)` and `ref[mid:]` on `[point, ref.end)`; the alt pieces are `alt[:m]` and `alt[m:]` with `m = min(mid, len(alt))`, at the matching coordinates; both texts rejoin to the originals, and both pieces are normalized and clear of the point |
| Extractor.PieceShapes | kipoiseq/extractors/vcf_seq.py:482-484 | the left and right pieces of a pair cut at `mid >= 0`, field by field, with Python's clamping of `mid` |
| Extractor.PiecesGood | kipoiseq/extractors/vcf_seq.py:482-484 | both pieces of a straddling pair are normalized, lie inside it and do not straddle the point |
| Extractor.SplitPairPieces | kipoiseq/extractors/vcf_seq.py:478-486 | in every mode, each piece a pair yields is normalized, lies inside the pair and does not straddle the point |
| Extractor.SplitOverlapping | kipoiseq/extractors/vcf_seq.py:474-486 | when no pair straddles the point, the split returns the pairs unchanged; SplitOverlappingSingle and SplitOverlappingAppend pin the whole result down |
| Extractor.SplitOverlappingSingle | kipoiseq/extractors/vcf_seq.py:474-486 | a single pair is replaced by exactly the pieces SplitPair gives it |
| Extractor.SplitOverlappingAppend | kipoiseq/extractors/vcf_seq.py:474-486 | the split of a concatenation is the concatenation of the splits, so every pair, crossing or not, is replaced in place by its pieces and none is dropped |
| Extractor.SplitOverlappingComplete | kipoiseq/extractors/vcf_seq.py:474-486 | every piece of every input pair is in the result |
| Extractor.SplitOneSided | kipoiseq/extractors/vcf_seq.py:474-486 | with `left` or `right` the result has one pair per input pair, at the same index: the pair itself or its kept piece |
| Extractor.SplitOverlappingOrigin | kipoiseq/extractors/vcf_seq.py:478-486 | every pair the split yields is one of the pieces of some input pair |
| Extractor.SplitOverlappingClear | kipoiseq/extractors/vcf_seq.py:474-486 | after a split at a point, in any mode, no pair straddles it; every pair is normalized and lies inside an input pair |
| Extractor.ClampAnchor | kipoiseq/extractors/vcf_seq.py:399 | the anchor is clamped into `[interval.start, interval.end]`: kept when inside, else moved to the nearer edge; for a reversed interval it is `interval.start` |
| Extractor.AtOrAfter | kipoiseq/extractors/vcf_seq.py:417 | the filter keeps exactly the pairs with `start >= anchor`; AtOrAfterOrder states their order |
| Extractor.AtOrAfterOrder | kipoiseq/extractors/vcf_seq.py:417 | for each start `s`, the kept pairs starting at `s` are, in input order, all input pairs starting at `s` when `s >= anchor`, and none otherwise |
| Extractor.Before | kipoiseq/extractors/vcf_seq.py:421 | the filter keeps exactly the pairs with `start < anchor`; BeforeOrder states their order |
| Extractor.BeforeOrder | kipoiseq/extractors/vcf_seq.py:421 | for each start, the kept pairs with that start are, in input order, all input pairs with that start when it is below the anchor, and none otherwise |
| Extractor.Upstream | kipoiseq/extractors/vcf_seq.py:416-418 | the pairs with `start >= anchor`, sorted by start; Partition and PartitionMembers state membership and order, and that pairs with equal starts come in the order of the input pairs |
| Extractor.Downstream | kipoiseq/extractors/vcf_seq.py:420-422 | the pairs with `start < anchor`, sorted by descending start; Partition and PartitionMembers state membership and order, and that pairs with equal starts come in the order of the input pairs |
| Extractor.PartitionCount | kipoiseq/extractors/vcf_seq.py:416-422 | the two filters together hold every input pair exactly as many times as the input does |
| Extractor.PartitionMembers | kipoiseq/extractors/vcf_seq.py:416-422 | upstream holds exactly the input pairs with `start >= anchor`, and downstream exactly those with `start < anchor` |
| Extractor.Partition | kipoiseq/extractors/vcf_seq.py:416-422 | every pair lands in exactly one group; upstream ascends and downstream descends by start; in each group the pairs with one start are, in the order of the input pairs, all input pairs with that start on that side |
| Extractor.DeletedBasesSnoc | kipoiseq/extractors/vcf_seq.py:492-500 | the deletion total of a prefix grows by the next pair's deleted bases |
| Extractor.NoDeletionNoExtension | kipoiseq/extractors/vcf_seq.py:492-500 | the window is not widened exactly when no pair has `len(alt) < len(ref)` |
| Extractor.UpdatedInterval | kipoiseq/extractors/vcf_seq.py:488-502 | `iend` grows by the bases the upstream pairs delete and `istart` shrinks by those the downstream pairs delete, so `istart <= start` and `end <= iend` |
| Extractor.UpSegments | kipoiseq/extractors/vcf_seq.py:519-531 | the segments the upstream walk appends; UpSegmentsShape states their layout and UpstreamBuilder that the loop builds exactly them |
| Extractor.DownSegments | kipoiseq/extractors/vcf_seq.py:504-517 | the segments the downstream walk appends before reversal; DownSegmentsShape states their layout and DownstreamBuilder that the loop builds them |
| Extractor.UpTaken | kipoiseq/extractors/vcf_seq.py:523-525 | the upstream walk takes the pairs before the first one with `ref.start >= iend` |
| Extractor.DownTaken | kipoiseq/extractors/vcf_seq.py:508-510 | the downstream walk takes the pairs before the first one with `ref.end <= istart` |
| Extractor.UpSegmentsLength | kipoiseq/extractors/vcf_seq.py:519-531 | the upstream builder holds two segments per pair it takes, plus the closing gap |
| Extractor.UpSegmentAt | kipoiseq/extractors/vcf_seq.py:519-531 | segment `2i` is the gap `[prev, ref.start)` and segment `2i + 1` is the alt of pair `i`; the last is `[prev, iend)` |
| Extractor.UpSegmentsShape | kipoiseq/extractors/vcf_seq.py:519-531 | the upstream list alternates the gap `[prev, ref.start)` with the alt of each pair taken, `prev` being the anchor and then the previous `ref.end`, and ends with `[prev, iend)` |
| Extractor.DownSegmentsLength | kipoiseq/extractors/vcf_seq.py:504-517 | the downstream builder holds two segments per pair it takes, plus the closing gap |
| Extractor.DownSegmentAt | kipoiseq/extractors/vcf_seq.py:504-517 | segment `2i` is the gap `[ref.end, prev)` and segment `2i + 1` is the alt of pair `i`; the last is `[istart, prev)` |
| Extractor.DownSegmentsShape | kipoiseq/extractors/vcf_seq.py:504-517 | before reversal, the downstream list alternates the gap `[ref.end, prev)` with the alt of each pair taken, `prev` being the anchor and then the previous `ref.start`, and ends with `[istart, prev)` |
| Extractor.UpstreamBuilder | kipoiseq/extractors/vcf_seq.py:519-531 | `_upstream_builder` returns a new builder holding exactly the upstream segment list |
| Extractor.DownstreamBuilder | kipoiseq/extractors/vcf_seq.py:504-517 | `_downstream_builder` returns a new builder holding the downstream segment list reversed into ascending coordinate order |
| Extractor.CutToFixLen | kipoiseq/extractors/vcf_seq.py:538-543 | the cut keeps the last `anchor - start` characters of the downstream text and the first `end - anchor` of the upstream text; a zero length gives `''`, and a side shorter than its length is kept whole |
| Extraction.SplitAll | kipoiseq/extractors/vcf_seq.py:403-410 | the split at the anchor, then at both interval edges unless the length is fixed; SplitAllNormalized, FixedLengthSplits and VariableLengthSplits state what it keeps |
| Extraction.Assembled | kipoiseq/extractors/vcf_seq.py:431-448 | the two builders' texts after fetching, restoring and joining; UpLength, DownLength and EmptyAssembled state their lengths and their value with no variants |
| Extraction.Finish | kipoiseq/extractors/vcf_seq.py:450-454 | the assembled texts, cut when the length is fixed, joined; FinishEmpty, CutKeepsExact and ExtractFixedLength state its value and length |
| Extraction.MakePlan | kipoiseq/extractors/vcf_seq.py:398-429 | steps 1 to 3 of `extract`: clamped anchor, split and partitioned pairs, fetch window; PlanWindow, PlanPairs and VariableLengthSplits state its properties |
| Extraction.Unstranded | kipoiseq/extractors/vcf_seq.py:431-454 | the joined string before the strand step; UnstrandedIgnoresStrand states it does not read the strand |
| Extraction.Extracted | kipoiseq/extractors/vcf_seq.py:381-459 | the string `extract` returns; ExtractFixedLength, ExtractIdentity, SingleVariantApplied, StrandSymmetry and AnchorClamp state its properties, and Extract computes it |
| Extraction.UpLength | kipoiseq/extractors/vcf_seq.py:519-531 | the resolved upstream text is at least `iend - prev` long, less the bases its pairs delete, even when pairs overlap |
| Extraction.DownLength | kipoiseq/extractors/vcf_seq.py:504-517 | the resolved downstream text is at least `prev - istart` long, less the bases its pairs delete |
| Extraction.ResolvedReversedLength | kipoiseq/extractors/vcf_seq.py:515 | reversing the downstream builder does not change the length of its resolved text |
| Extraction.SplitAllNormalized | kipoiseq/extractors/vcf_seq.py:402-410 | all three splits keep every pair normalized |
| Extraction.PlanWindow | kipoiseq/extractors/vcf_seq.py:424-429 | with `fixed_len`, the window is the interval widened by each side's deleted bases, so it never shrinks; without it, the window is the interval itself |
| Extraction.PlanPairs | kipoiseq/extractors/vcf_seq.py:412-422 | the pairs that reach the builders are normalized and lie on their own side of the clamped anchor |
| Extraction.ExtractFixedLength | kipoiseq/extractors/vcf_seq.py:392-393 | with `fixed_len`, the result is `interval.end - interval.start` long for any variants, provided the reference holds the widened window |
| Extraction.EmptyPlan | kipoiseq/extractors/vcf_seq.py:398-429 | with no variants there are no pairs, and the window is the interval itself in both modes |
| Extraction.EmptyAssembled | kipoiseq/extractors/vcf_seq.py:434-448 | with no pairs, the downstream text is the reference before the anchor and the upstream text the reference after it |
| Extraction.CutKeepsExact | kipoiseq/extractors/vcf_seq.py:538-543 | a cut whose two sides already have the target lengths changes nothing |
| Extraction.FinishEmpty | kipoiseq/extractors/vcf_seq.py:434-454 | with no pairs, assembling, cutting and joining give the reference text of the interval |
| Extraction.ExtractIdentity | kipoiseq/extractors/vcf_seq.py:381-459 | with no variants, `extract` returns the reference text of the interval (reverse complemented on `-`), in either mode and for any anchor |
| Extraction.PlanIgnoresStrand | kipoiseq/extractors/vcf_seq.py:398-429 | the strand does not affect the plan: anchor, groups and window |
| Extraction.CutIgnoresStrand | kipoiseq/extractors/vcf_seq.py:538-543 | the cut reads only the interval's coordinates |
| Extraction.FinishIgnoresStrand | kipoiseq/extractors/vcf_seq.py:434-454 | assembling, cutting and joining do not depend on the strand |
| Extraction.UnstrandedIgnoresStrand | kipoiseq/extractors/vcf_seq.py:398-454 | the string before the strand step is the same for every strand |
| Extraction.StrandSymmetry | kipoiseq/extractors/vcf_seq.py:456-457 | the `-` strand result is the reverse complement of the `+` strand result, and the reverse complement of the `-` result is the `+` result |
| Extraction.PlanClamp | kipoiseq/extractors/vcf_seq.py:399 | clamping the anchor beforehand does not change the plan |
| Extraction.AnchorClamp | kipoiseq/extractors/vcf_seq.py:399 | an anchor outside the interval gives the same result as the nearest interval edge |
| Extraction.WithinKeepsClear | kipoiseq/extractors/vcf_seq.py:404-410 | pieces lying inside pairs that do not straddle a point do not straddle it either |
| Extraction.EdgeCutStep | kipoiseq/extractors/vcf_seq.py:407-410 | the `right` split at the start and then the `left` split at the end turn a pair clear of the anchor into a piece inside it that starts at `interval.start` if the pair crossed the start, ends at `interval.end` if it crossed the end, and is the pair itself otherwise |
| Extraction.EdgeSplitsOrigin | kipoiseq/extractors/vcf_seq.py:407-410 | every pair after the two edge splits is such an edge cut of a pair after the anchor split |
| Extraction.EdgeSplitsInPlace | kipoiseq/extractors/vcf_seq.py:407-410 | the two edge splits replace each pair, at its own index, by its single edge piece |
| Extraction.EdgeSplitsComplete | kipoiseq/extractors/vcf_seq.py:404-410 | the edge piece of every anchor-split piece of every input pair survives both edge splits and is an edge cut of it |
| Extraction.VariableLengthSplits | kipoiseq/extractors/vcf_seq.py:404-422 | without `fixed_len`, no pair that reaches the builders straddles the anchor, the interval start or the interval end; each is an edge cut of an anchor-split pair, so the material of a pair before `interval.start` or after `interval.end` is dropped; and conversely the edge piece of every anchor-split piece of every variant reaches the builders |
| Extraction.FixedLengthSplits | kipoiseq/extractors/vcf_seq.py:404-422 | with `fixed_len`, the pairs that reach the builders are exactly the anchor-split pieces of the variants |
| Extraction.UpStepLength | kipoiseq/extractors/vcf_seq.py:519-531 | one turn of the upstream loop contributes the gap before the pair (empty when negative), then its alt, then what the rest of the walk resolves to |
| Extraction.FinishExact | kipoiseq/extractors/vcf_seq.py:450-454 | when the assembled sides already have the lengths the cut keeps, the result is their plain join in either mode |
| Extraction.EdgePieceIsCut | kipoiseq/extractors/vcf_seq.py:407-410 | a normalized pair clear of the anchor becomes, after both edge splits, an edge cut of itself |
| Extraction.EdgePiecesMembers | kipoiseq/extractors/vcf_seq.py:407-410 | every pair's edge piece is among the pairs the two edge splits yield |
| Extraction.EdgePiecesCut | kipoiseq/extractors/vcf_seq.py:407-410 | for pairs clear of the anchor, each one's edge piece is an edge cut of it |
| Extraction.VariablePlanMembers | kipoiseq/extractors/vcf_seq.py:412-422 | without `fixed_len`, the upstream and downstream groups together hold exactly the split pairs, and the plan's anchor is the clamped one |
| Extraction.SplitAllClear | kipoiseq/extractors/vcf_seq.py:404-410 | without `fixed_len`, no pair left by the three splits straddles the anchor, the interval start or the interval end |
| Extraction.VariableLengthClear | kipoiseq/extractors/vcf_seq.py:404-422 | without `fixed_len`, no pair in either group straddles the anchor or an interval edge |
| Extraction.VariableLengthOrigin | kipoiseq/extractors/vcf_seq.py:404-422 | without `fixed_len`, every pair in either group is an edge cut of an anchor-split piece of some variant |
| Extraction.VariableLengthComplete | kipoiseq/extractors/vcf_seq.py:404-422 | without `fixed_len`, the edge piece of every anchor-split piece of every variant is in one of the groups |
| Extraction.UpOneSegments | kipoiseq/extractors/vcf_seq.py:519-531 | with one pair starting before `iend`, the upstream builder holds the gap up to it, its alt, and the gap from its end to `iend` |
| Extraction.DownOneSegments | kipoiseq/extractors/vcf_seq.py:504-517 | with one pair ending after `istart`, the reversed downstream builder holds the gap from `istart`, its alt, and the gap from its end to `prev` |
| Extraction.UpOneText | kipoiseq/extractors/vcf_seq.py:519-531 | one pair inside the window: the upstream text is the window from `prev` to the pair, the alt, and the window from the pair's end to the window's end |
| Extraction.DownOneText | kipoiseq/extractors/vcf_seq.py:504-517 | one pair inside the window: the downstream text is the window up to the pair, the alt, and the window from the pair's end to `prev` |
| Extraction.FilterSingle | kipoiseq/extractors/vcf_seq.py:416-422 | a single pair goes upstream exactly when it starts at or after the anchor, and downstream otherwise |
| Extraction.FilterTwo | kipoiseq/extractors/vcf_seq.py:416-422 | of a left and a right piece around the anchor, the right one goes upstream and the left one downstream |
| Extraction.OneSplitPartition | kipoiseq/extractors/vcf_seq.py:412-422 | a lone pair crossing the anchor sends its left piece downstream and its right piece upstream; otherwise it goes whole to the side its start is on |
| Extraction.OneSplit | kipoiseq/extractors/vcf_seq.py:402-410 | without `fixed_len`, a lone pair inside the interval is cut only at the anchor, and only when it crosses it |
| Extraction.OnePlan | kipoiseq/extractors/vcf_seq.py:398-429 | without `fixed_len`, a single variant inside the interval: the window is the interval, the anchor lies inside it, and the pair is placed as OneSplitPartition says |
| Extraction.RefTextJoin | kipoiseq/extractors/vcf_seq.py:533-536 | the reference text of `[a, c)` is that of `[a, b)` followed by that of `[b, c)` |
| Extraction.JoinBefore | kipoiseq/extractors/vcf_seq.py:454 | a downstream text ending at the anchor joined with an upstream text that substitutes the pair is the window with the pair substituted |
| Extraction.JoinAfter | kipoiseq/extractors/vcf_seq.py:454 | a downstream text that substitutes the pair and ends at the anchor, joined with the rest of the window, is the window with the pair substituted |
| Extraction.JoinCut | kipoiseq/extractors/vcf_seq.py:454 | the two sides of a pair cut at the anchor, joined, give the window with the whole pair substituted, because the two alt pieces join back into the alt |
| Extraction.CutPieces | kipoiseq/extractors/vcf_seq.py:479-484 | cutting a pair at a point it crosses gives a left piece ending there and a right piece starting there, whose alt texts join back into the pair's alt |
| Extraction.PiecesText | kipoiseq/extractors/vcf_seq.py:434-454 | the downstream text of the left piece and the upstream text of the right piece join into the window with the whole pair substituted |
| Extraction.CutPairText | kipoiseq/extractors/vcf_seq.py:404-454 | a pair crossing the anchor, cut and built on both sides, gives the window with the pair substituted |
| Extraction.UpPairText | kipoiseq/extractors/vcf_seq.py:434-454 | a pair at or after the anchor: the empty downstream walk and the upstream walk over it join into the window with the pair substituted |
| Extraction.DownPairText | kipoiseq/extractors/vcf_seq.py:434-454 | a pair before the anchor: the downstream walk over it and the empty upstream walk join into the window with the pair substituted |
| Extraction.OnePairText | kipoiseq/extractors/vcf_seq.py:434-454 | wherever the plan placed a lone pair, the two builders' texts join into the window with the pair substituted |
| Extraction.SubstitutedWindow | kipoiseq/extractors/vcf_seq.py:533-536 | the fetched window with a pair substituted is the reference before the pair, its alt, and the reference after it |
| Extraction.UnstrandedVariable | kipoiseq/extractors/vcf_seq.py:431-454 | without `fixed_len`, the unstranded string is the downstream text joined with the upstream text, both resolved against the interval's own window |
| Extraction.OnePlanText | kipoiseq/extractors/vcf_seq.py:398-454 | without `fixed_len`, a single variant inside the interval: the two builders' texts join into the interval's window with the variant substituted |
| Extraction.OnePairOf | kipoiseq/extractors/vcf_seq.py:462-472 | the pair made from a variant has its ref at `[POS - 1, POS - 1 + len(REF))` and its alt text is ALT[0] |
| Extraction.AppliedWindow | kipoiseq/extractors/vcf_seq.py:462-472 | the interval's window with a variant's pair substituted is the reference up to the variant, ALT[0], and the reference after REF |
| Extraction.OneVariantUnstranded | kipoiseq/extractors/vcf_seq.py:381-454 | without `fixed_len`, for one variant inside the interval the string before the strand step is the interval's reference with REF replaced by ALT[0] |
| Extraction.SingleVariantApplied | kipoiseq/extractors/vcf_seq.py:381-459 | without `fixed_len`, for one variant inside the interval `extract` returns the interval's reference with REF replaced by ALT[0], reverse complemented on `-`; the reference interval suffices for the window |
| Extraction.Extract | kipoiseq/extractors/vcf_seq.py:381-459 | `extract`, built from the builder objects, returns the assembled string; with `fixed_len` it has the interval's length; with no variants it is the interval's reference text, stranded |
| MultiSample.VariantToId | kipoiseq/extractors/vcf_seq.py:12-14 | `"CHROM:POS:REF:['ALT0']"`; IdRoundTrip, IdInjective and IdCollision state when it can be parsed back and when it is unique |
| MultiSample.ParseVariantId | kipoiseq/extractors/vcf_seq.py:282-284 | the parse fails exactly when there are not four `:` fields, the position is not an integer, or the last field has no second `'` piece; a wrong field count or a bad position is `ValueError`, a missing second `'` piece is `IndexError`; the position is `int` of the second field; parsed fields hold no separator |
| MultiSample.AltFieldSplit | kipoiseq/extractors/vcf_seq.py:284 | `['ALT']` splits on `'` into `[`, the allele and `]` |
| MultiSample.SplitFour | kipoiseq/extractors/vcf_seq.py:282 | four separator-free fields joined by the separator split back into those four fields |
| MultiSample.IdFieldsSplit | kipoiseq/extractors/vcf_seq.py:282 | the id of a variant with plain fields splits on `:` into chrom, `str(pos)`, ref and `['alt']` |
| MultiSample.IdRoundTrip | kipoiseq/extractors/vcf_seq.py:12-14 | the id of a variant whose fields hold no `:` or `'` parses back to `(chrom, pos, ref, alt)` |
| MultiSample.IdInjective | kipoiseq/extractors/vcf_seq.py:12-14 | for such variants, two ids are equal exactly when the four fields are equal |
| MultiSample.IdCollision | kipoiseq/extractors/vcf_seq.py:12-14 | two variants that differ in their fields, one with a `:` in CHROM, share an id |
| MultiSample.GetVariantById | kipoiseq/extractors/vcf_seq.py:282-290 | a malformed id fails with the parse's error; otherwise the result is the first candidate whose REF and ALT[0] match, and `KeyError` exactly when none does |
| MultiSample.HasVariantGt | kipoiseq/extractors/vcf_seq.py:228-229 | over the four codes of cyvcf2's default encoding, a sample carries the variant exactly when it is heterozygous or homozygous alternate |
| MultiSample.Zip | kipoiseq/extractors/vcf_seq.py:303 | `zip` pairs the two lists up to the shorter length |
| MultiSample.SampleMap | kipoiseq/extractors/vcf_seq.py:302-303 | `dict(filter(has_variant_gt, pairs))`; SampleMapSpec states its keys and values |
| MultiSample.GetSamples | kipoiseq/extractors/vcf_seq.py:302-303 | `get_samples` over the sample names and the variant's genotypes; GetSamplesSpec states its keys and values |
| MultiSample.SampleMapSpec | kipoiseq/extractors/vcf_seq.py:302-303 | `dict(filter(...))` holds a sample exactly when one of its pairs carries the variant, and maps it to its last carrying genotype |
| MultiSample.GetSamplesSpec | kipoiseq/extractors/vcf_seq.py:302-303 | a sample is in `get_samples` exactly when one of its genotypes carries the variant; its value is the last such genotype, which itself carries the variant |
| MultiSample.SampleCalls | kipoiseq/extractors/vcf_seq.py:316-327 | the list the loop builds for one sample; SampleCallsSound, SampleCallsDistinct and SampleCallsComplete state its contents, and FetchSamplesWithVariants is proved to return it |
| MultiSample.IdsOfSnoc | kipoiseq/extractors/vcf_seq.py:325 | adding a call to a sample's list adds its id to the list's id set |
| MultiSample.SampleCallsSnoc | kipoiseq/extractors/vcf_seq.py:321-325 | one more variant appends it, with its genotype, to a sample's list exactly when the sample carries it and its id is new |
| MultiSample.SampleCallsSound | kipoiseq/extractors/vcf_seq.py:316-327 | every entry of a sample's list is an input variant the sample carries, with that sample's carrying genotype |
| MultiSample.SampleCallsDistinct | kipoiseq/extractors/vcf_seq.py:316-327 | no id appears twice in a sample's list |
| MultiSample.SampleCallsComplete | kipoiseq/extractors/vcf_seq.py:316-327 | every input variant a sample carries has its id in that sample's list |
| MultiSample.TrackStep | kipoiseq/extractors/vcf_seq.py:322-325 | one turn of the innermost loop keeps both dictionaries in step with the reference lists at that sample |
| MultiSample.TracksAtFrame | kipoiseq/extractors/vcf_seq.py:322-325 | updating one sample's entries leaves every other sample's agreement unchanged |
| MultiSample.RecordFrame | kipoiseq/extractors/vcf_seq.py:322-325 | updating one sample's entries keeps every other sample done or pending as before |
| MultiSample.RecordStep | kipoiseq/extractors/vcf_seq.py:322-325 | one turn of the sample loop moves that sample from pending to done |
| MultiSample.RecordVariant | kipoiseq/extractors/vcf_seq.py:321-325 | processing one variant moves both dictionaries from the reference lists without it to the lists with it, for every sample |
| MultiSample.FetchSamplesWithVariants | kipoiseq/extractors/vcf_seq.py:316-327 | the result holds exactly the samples with a non-empty list, and maps each to its reference list: the variants it carries, in fetch order, first occurrence of each id only |
| VariantQuery.NumberMask | kipoiseq/extractors/vcf_seq.py:85-89 | the mask has one entry per variant: all `True` when `min_num <= len <= max_num`, all `False` otherwise |
| VariantQuery.Masked | kipoiseq/extractors/vcf_seq.py:135-136 | the filtered generator yields no more than the group holds, only variants from the group, and every variant whose mask entry is true |
| VariantQuery.MaskedSingle | kipoiseq/extractors/vcf_seq.py:135-136 | one variant is kept exactly when its mask entry is true |
| VariantQuery.MaskedAppend | kipoiseq/extractors/vcf_seq.py:135-136 | the filter works entry by entry and in order: masking a concatenation masks each part with its own stretch of the mask |
| VariantQuery.MaskedAllTrue | kipoiseq/extractors/vcf_seq.py:135-136 | an all-`True` mask at least as long as the group keeps the group whole |
| VariantQuery.MaskedAllFalse | kipoiseq/extractors/vcf_seq.py:135-136 | an all-`False` mask empties the group |
| VariantQuery.FilterAll | kipoiseq/extractors/vcf_seq.py:132-136 | `_filter_all` keeps one entry per group, keeps its interval, and filters its variants by the mask the query returns for it |
| VariantQuery.FilterByNum | kipoiseq/extractors/vcf_seq.py:138-153 | `filter_by_num`: `_filter_all` with the count-range mask; FilterByNumSpec states the result |
| VariantQuery.FilterByNumSpec | kipoiseq/extractors/vcf_seq.py:138-153 | `filter_by_num` keeps each group whole when its count is in range and empties it otherwise; intervals and group count are unchanged |

## Left out

- cyvcf2 access is not modelled: `fetch_variants`, `_region`, `query_variants`/`query_samples`,
  `to_vcf` and `MultiSampleVCF.__init__` are VCF file I/O. Variant lists are inputs, and
  `get_variant_by_id` takes the variants fetched at the id's position as a parameter.
- `_fetch` reads the FASTA file through `FastaStringExtractor`. The model slices a given
  reference string, and `Extract` requires the reference to hold the widened window.
- pyfaidx's `Sequence` normalisation for one-based coordinates is left out. Every model
  sequence has `end == start + len(seq)`.
- Genomics.Complement: pyfaidx's `complement` is not part of this model. The model uses its
  translation table (DNA bases, N and the IUPAC ambiguity letters, in both cases), and leaves
  every other character unchanged where pyfaidx raises `ValueError` on it.
- The chromosome of placeholder `Interval`s and the `name` of `Sequence`s are dropped. A fetch
  reads one chromosome, so they carry no information.
- Generator laziness, `tqdm` progress wrapping and the `float('inf')` default are plumbing.
  Sequences are finite and an absent maximum is `None`.
- The `BaseQuery` hierarchy, the `NotImplementedError` stubs, `_has_variant` (a lookup through
  the sample mapping), `SingleVariantVCFSeqExtractor` and `SingleSeqVCFSeqExtractor` are left
  out. They are thin wrappers with no logic of their own.
- Only the first ALT allele is kept in the variant record, as the extractor and `variant_to_id`
  read only `ALT[0]`. The model's variant always has one, so the `IndexError` that `ALT[0]` raises
  for a record with no ALT allele (in `variant_to_id` and `_variant_to_sequence`) is not modelled.
- PyText.ParseInt accepts an optional sign followed by ASCII decimal digits. It does not model
  Python's acceptance of surrounding whitespace, of `_` between digits, or of non-ASCII decimal
  digits (`int('٣') == 3`, and the full-width digits likewise). The position of an id built
  with `str` never has any of these.
- MultiSample.HasVariantGt: the contract speaks only of the four genotype codes 0, 1, 2, 3
  under cyvcf2's default encoding (0 homozygous reference, 1 heterozygous, 2 unknown,
  3 homozygous alternate), the only values `gt_types` holds. `MultiSampleVCF.__init__`
  forwards its keyword arguments to cyvcf2, and with `gts012=True` codes 2 and 3 swap
  meaning; the model follows the default. The body is the source's rule for any integer.
- MultiSample.FetchSamplesWithVariants: the result is a map, so the insertion order of the
  returned `dict`'s keys is not modelled. Each sample's list order is modelled.
- Extraction.Extracted: that `extract` substitutes ALT[0] for REF is proved for a single
  variant only (SingleVariantApplied), without `fixed_len`, and for a variant with a non-empty
  REF lying inside the interval. For several disjoint variants, and for the `fixed_len` cut of
  a substituted string, only the length (ExtractFixedLength), the no-variant identity and the
  placement of the pairs (PlanPairs, VariableLengthSplits) are proved.
- The fixed-length result is proved for `interval.start <= interval.end`. For a reversed
  interval the clamped anchor lies outside it and the source's slice arithmetic has no length
  promise.
