/**
 * The records the extractor works on: a pyfaidx `Sequence` (text with 0-based, half-open
 * coordinates), a pybedtools `Interval`, a cyvcf2 variant record, the reference chromosome,
 * and base complementation.
 */
module Genomics {
  import opened PyText

  /** A pyfaidx `Sequence`: its text and the coordinates `[start, end)` it claims to cover. */
  datatype Seq = Seq(text: string, start: int, end: int)

  /** 0-based coordinates consistent with the text: `end - start == len(seq)`. */
  predicate Normalized(s: Seq) { s.end == s.start + |s.text| }

  /**
   * `s[a:b]` on a pyfaidx `Sequence`: the text is sliced as a Python string, and the new
   * coordinates are shifted by the clamped slice bounds.
   */
  function SliceSeq(s: Seq, a: int, b: int): (r: Seq)
    ensures 0 <= a <= b <= |s.text| ==> r.text == s.text[a..b] && r.start == s.start + a && r.end == s.start + b
    ensures Normalized(s) && ClampIndex(a, |s.text|) <= ClampIndex(b, |s.text|) ==> Normalized(r)
  {
    var lo, hi := ClampIndex(a, |s.text|), ClampIndex(b, |s.text|);
    Seq(PySlice(s.text, a, b), s.start + lo, s.start + hi)
  }

  /** `s[:mid]` and `s[mid:]` for a non-negative `mid`: the text is cut at `mid`, or kept whole when shorter. */
  lemma SliceHalves(s: Seq, mid: int)
    requires mid >= 0
    ensures var m := Min(mid, |s.text|);
            && SliceSeq(s, 0, mid) == Seq(s.text[..m], s.start, s.start + m)
            && SliceSeq(s, mid, |s.text|) == Seq(s.text[m..], s.start + m, s.start + |s.text|)
  {
    var m := Min(mid, |s.text|);
    assert ClampIndex(mid, |s.text|) == m;
    assert ClampIndex(0, |s.text|) == 0;
    assert ClampIndex(|s.text|, |s.text|) == |s.text|;
  }

  /** A pybedtools `Interval`: half-open, 0-based, with a strand string such as "+", "-" or ".". */
  datatype Interval = Interval(chrom: string, start: int, end: int, strand: string)

  /**
   * A cyvcf2 variant record: 1-based `POS`, `REF`, the first `ALT` allele (the only one the
   * extractor reads) and the per-sample genotype codes `gt_types`.
   */
  datatype Variant = Variant(chrom: string, pos: int, ref: string, alt: string, gtTypes: seq<int>)
  {
    /** cyvcf2's 0-based `start`. */
    function Start(): int { pos - 1 }
  }

  /** The reference bases of one chromosome from coordinate `start` on. */
  datatype Reference = Reference(text: string, start: int)

  predicate Covers(reference: Reference, a: int, b: int) {
    reference.start <= a <= b <= reference.start + |reference.text|
  }

  /** The reference text of `[a, b)`. */
  function RefText(reference: Reference, a: int, b: int): (s: string)
    requires Covers(reference, a, b)
    ensures |s| == b - a
  {
    reference.text[a - reference.start .. b - reference.start]
  }

  /** `_fetch`: the window `[a, b)` of the reference, as a `Sequence` with those coordinates. */
  function Fetch(reference: Reference, a: int, b: int): (w: Seq)
    requires Covers(reference, a, b)
    ensures Normalized(w) && w.start == a && w.end == b
    ensures w.text == RefText(reference, a, b)
  {
    Seq(RefText(reference, a, b), a, b)
  }

  /**
   * pyfaidx's base-complement table: A/T, C/G and the IUPAC ambiguity pairs R/Y, K/M, B/V and
   * D/H swap, in both cases; N, W, S, X and every other character map to themselves.
   */
  function Complement(c: char): char {
    match c
    case 'A' => 'T' case 'T' => 'A' case 'C' => 'G' case 'G' => 'C'
    case 'a' => 't' case 't' => 'a' case 'c' => 'g' case 'g' => 'c'
    case 'R' => 'Y' case 'Y' => 'R' case 'K' => 'M' case 'M' => 'K'
    case 'B' => 'V' case 'V' => 'B' case 'D' => 'H' case 'H' => 'D'
    case 'r' => 'y' case 'y' => 'r' case 'k' => 'm' case 'm' => 'k'
    case 'b' => 'v' case 'v' => 'b' case 'd' => 'h' case 'h' => 'd'
    case _ => c
  }

  /** Complementing a base twice gives it back. */
  lemma ComplementInvolution(c: char)
    ensures Complement(Complement(c)) == c
  {
  }

  function ComplementAll(s: string): (r: string)
    ensures |r| == |s|
    ensures forall k :: 0 <= k < |s| ==> r[k] == Complement(s[k])
  {
    seq(|s|, k requires 0 <= k < |s| => Complement(s[k]))
  }

  /** `complement(seq)[::-1]`. */
  function ReverseComplement(s: string): (r: string)
    ensures |r| == |s|
  {
    Reversed(ComplementAll(s))
  }

  /** Position `k` of the reverse complement is the complement of position `|s| - 1 - k`. */
  lemma ReverseComplementAt(s: string, k: nat)
    requires k < |s|
    ensures ReverseComplement(s)[k] == Complement(s[|s| - 1 - k])
  {
    ReversedAt(ComplementAll(s), k);
  }

  /** Taking the reverse complement twice gives back the input. */
  lemma ReverseComplementInvolution(s: string)
    ensures ReverseComplement(ReverseComplement(s)) == s
  {
    var r := ReverseComplement(ReverseComplement(s));
    forall k | 0 <= k < |s| ensures r[k] == s[k] {
      ReverseComplementAt(ReverseComplement(s), k);
      ReverseComplementAt(s, |s| - 1 - k);
    }
  }

  /** The strand rule of `extract`: minus-strand intervals get the reverse complement. */
  function Stranded(s: string, strand: string): (r: string)
    ensures |r| == |s|
    ensures strand != "-" ==> r == s
  {
    if strand == "-" then ReverseComplement(s) else s
  }
}
