/**
 * `IntervalSeqBuilder`: a list of segments, each either a reference placeholder (a pybedtools
 * `Interval` whose bases are not known yet) or a literal `Sequence`. `Restore` resolves every
 * placeholder against one fetched window; `Concat` joins the texts and refuses to run while a
 * placeholder is left.
 */
module SeqBuilder {
  import opened Wrappers
  import opened PyText
  import opened Genomics

  datatype Segment = Placeholder(start: int, end: int) | Literal(s: Seq)

  /** Every segment is a literal: the second phase of the builder. */
  predicate Resolved(segs: seq<Segment>) {
    forall k :: 0 <= k < |segs| ==> segs[k].Literal?
  }

  /** The slice of `window` at offset `start - window.start`, of length `max(0, end - start)`. */
  function RestoreSegment(seg: Segment, window: Seq): (r: Segment)
    ensures r.Literal?
    ensures seg.Literal? ==> r == seg
    ensures seg.Placeholder? && Normalized(window) && window.start <= seg.start &&
            (seg.start <= seg.end ==> seg.end <= window.end) ==>
              |r.s.text| == Max(0, seg.end - seg.start) &&
              (seg.start <= seg.end ==> r.s.text == window.text[seg.start - window.start .. seg.end - window.start])
  {
    match seg
    case Literal(_) => seg
    case Placeholder(a, b) =>
      var offset := a - window.start;
      Literal(SliceSeq(window, offset, offset + Max(0, b - a)))
  }

  /** A placeholder inside the window restores to the window's text at its coordinates. */
  lemma PlaceholderText(x: int, y: int, window: Seq)
    requires Normalized(window) && window.start <= x <= y <= window.end
    ensures RestoreSegment(Placeholder(x, y), window).s.text == window.text[x - window.start .. y - window.start]
  {
  }

  /** The builder's contents after `restore(window)`. */
  function RestoreAll(segs: seq<Segment>, window: Seq): (r: seq<Segment>)
    ensures |r| == |segs| && Resolved(r)
    ensures forall k :: 0 <= k < |segs| ==> r[k] == RestoreSegment(segs[k], window)
  {
    seq(|segs|, k requires 0 <= k < |segs| => RestoreSegment(segs[k], window))
  }

  function LiteralText(seg: Segment): string {
    if seg.Literal? then seg.s.text else ""
  }

  /** The in-order join of the literal texts. */
  function Texts(segs: seq<Segment>): string {
    if segs == [] then "" else Texts(segs[..|segs| - 1]) + LiteralText(segs[|segs| - 1])
  }

  lemma {:induction false} TextsAppend(a: seq<Segment>, b: seq<Segment>)
    ensures Texts(a + b) == Texts(a) + Texts(b)
    decreases |b|
  {
    if b == [] {
      assert a + b == a;
    } else {
      assert (a + b)[..|a + b| - 1] == a + b[..|b| - 1];
      TextsAppend(a, b[..|b| - 1]);
    }
  }

  lemma TextsSingle(seg: Segment)
    ensures Texts([seg]) == LiteralText(seg)
  {
    assert [seg][..0] == [];
  }

  /** Reversing the segment list keeps the total text length. */
  lemma {:induction false} TextsReversedLength(segs: seq<Segment>)
    ensures |Texts(Reversed(segs))| == |Texts(segs)|
  {
    if segs != [] {
      var head, tail := segs[0], segs[1..];
      TextsReversedLength(tail);
      assert Reversed(segs) == Reversed(tail) + [head];
      assert segs == [head] + tail;
      TextsAppend(Reversed(tail), [head]);
      TextsAppend([head], tail);
      TextsSingle(head);
    }
  }

  lemma RestoreAllAppend(a: seq<Segment>, b: seq<Segment>, window: Seq)
    ensures RestoreAll(a + b, window) == RestoreAll(a, window) + RestoreAll(b, window)
  {
  }

  lemma {:induction false} RestoreAllReversed(segs: seq<Segment>, window: Seq)
    ensures RestoreAll(Reversed(segs), window) == Reversed(RestoreAll(segs, window))
  {
    var r, s := RestoreAll(Reversed(segs), window), Reversed(RestoreAll(segs, window));
    forall k | 0 <= k < |segs| ensures r[k] == s[k] {
      ReversedAt(segs, k);
      ReversedAt(RestoreAll(segs, window), k);
    }
  }

  /** The text a segment list resolves to against `window`. */
  function ResolvedText(segs: seq<Segment>, window: Seq): string {
    Texts(RestoreAll(segs, window))
  }

  lemma ResolvedTextAppend(a: seq<Segment>, b: seq<Segment>, window: Seq)
    ensures ResolvedText(a + b, window) == ResolvedText(a, window) + ResolvedText(b, window)
  {
    RestoreAllAppend(a, b, window);
    TextsAppend(RestoreAll(a, window), RestoreAll(b, window));
  }

  lemma ResolvedTextSingle(seg: Segment, window: Seq)
    ensures ResolvedText([seg], window) == RestoreSegment(seg, window).s.text
  {
    assert RestoreAll([seg], window) == [RestoreSegment(seg, window)];
    TextsSingle(RestoreSegment(seg, window));
  }

  /** Two leading segments contribute their restored texts ahead of the rest. */
  lemma ResolvedTextTwoThen(a: Segment, b: Segment, rest: seq<Segment>, window: Seq)
    ensures ResolvedText([a] + [b] + rest, window) ==
            RestoreSegment(a, window).s.text + RestoreSegment(b, window).s.text + ResolvedText(rest, window)
  {
    ResolvedTextAppend([a] + [b], rest, window);
    ResolvedTextAppend([a], [b], window);
    ResolvedTextSingle(a, window);
    ResolvedTextSingle(b, window);
  }

  lemma ResolvedTextThree(a: Segment, b: Segment, c: Segment, window: Seq)
    ensures ResolvedText([a, b, c], window) ==
            RestoreSegment(a, window).s.text + RestoreSegment(b, window).s.text + RestoreSegment(c, window).s.text
  {
    assert [a, b, c] == [a] + [b] + [c];
    ResolvedTextTwoThen(a, b, [c], window);
    ResolvedTextSingle(c, window);
  }

  /** A lone placeholder inside the window resolves to the window's text at its coordinates. */
  lemma PlaceholderResolved(x: int, y: int, window: Seq)
    requires Normalized(window) && window.start <= x <= y <= window.end
    ensures ResolvedText([Placeholder(x, y)], window) == window.text[x - window.start .. y - window.start]
  {
    ResolvedTextSingle(Placeholder(x, y), window);
    PlaceholderText(x, y, window);
  }

  /** A literal between two placeholders inside the window: the window's text either side of it. */
  lemma GapLitGapText(x1: int, y1: int, s: Seq, x2: int, y2: int, window: Seq)
    requires Normalized(window) && window.start <= x1 <= y1 <= window.end && window.start <= x2 <= y2 <= window.end
    ensures ResolvedText([Placeholder(x1, y1), Literal(s), Placeholder(x2, y2)], window) ==
            window.text[x1 - window.start .. y1 - window.start] + s.text + window.text[x2 - window.start .. y2 - window.start]
  {
    ResolvedTextThree(Placeholder(x1, y1), Literal(s), Placeholder(x2, y2), window);
    PlaceholderText(x1, y1, window);
    PlaceholderText(x2, y2, window);
  }

  class IntervalSeqBuilder {
    var segments: seq<Segment>

    constructor ()
      ensures segments == []
    {
      segments := [];
    }

    method Append(seg: Segment)
      modifies this
      ensures segments == old(segments) + [seg]
    {
      segments := segments + [seg];
    }

    method Reverse()
      modifies this
      ensures segments == Reversed(old(segments))
    {
      segments := Reversed(segments);
    }

    /** `restore`: replaces each placeholder by its window slice, in place; literals stay. */
    method Restore(window: Seq)
      modifies this
      ensures segments == RestoreAll(old(segments), window)
    {
      var i := 0;
      while i < |segments|
        invariant 0 <= i <= |segments| == |old(segments)|
        invariant segments[..i] == RestoreAll(old(segments), window)[..i]
        invariant segments[i..] == old(segments)[i..]
      {
        if segments[i].Placeholder? {
          var len := Max(0, segments[i].end - segments[i].start);
          var start := segments[i].start - window.start;
          segments := segments[i := Literal(SliceSeq(window, start, start + len))];
        }
        assert segments[i] == RestoreSegment(old(segments)[i], window) by {
          assert old(segments)[i] == old(segments)[i..][0];
        }
        i := i + 1;
      }
    }

    /**
     * `concat`: the in-order join of the texts, or the `TypeError` the source raises when a
     * placeholder has not been restored.
     */
    method Concat() returns (r: Result<string>)
      ensures r.Ok? <==> Resolved(segments)
      ensures r.Ok? ==> r.value == Texts(segments)
      ensures r.Err? ==> r.error.TypeError?
    {
      var acc := "";
      var i := 0;
      while i < |segments|
        invariant 0 <= i <= |segments|
        invariant Resolved(segments[..i])
        invariant acc == Texts(segments[..i])
      {
        if !segments[i].Literal? {
          return Err(TypeError("Intervals should be restored with `restore` method before calling concat method!"));
        }
        assert segments[..i + 1][..i] == segments[..i];
        acc := acc + segments[i].s.text;
        i := i + 1;
      }
      assert segments[..i] == segments;
      r := Ok(acc);
    }
  }
}
