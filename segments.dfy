/**
 * Run detection of the TinyImage encoder: the pixel stream, masked to
 * 24-bit RGB, is cut into maximal runs of one colour.
 */
module Segments {

  /** Number of distinct 24-bit RGB values. */
  const ColorRange: int := 0x100_0000

  /**
   * The colour a pixel contributes: its low 24 bits. For a 32-bit
   * two's-complement pixel value this is `pixel & 0x00ffffff`, since the
   * Euclidean remainder keeps exactly the low 24 bits of the bit pattern.
   */
  function Mask(pixel: int): (rgb: int)
    ensures 0 <= rgb < ColorRange
    ensures (pixel - rgb) % ColorRange == 0
  {
    pixel % ColorRange
  }

  /** The masked colour of every pixel, in scan order. */
  function Masked(pixels: seq<int>): (m: seq<int>)
    ensures |m| == |pixels|
    ensures forall i :: 0 <= i < |pixels| ==> m[i] == Mask(pixels[i])
  {
    seq(|pixels|, i requires 0 <= i < |pixels| => Mask(pixels[i]))
  }

  /** The value held by one ImageSegment: where it starts, how many pixels, which colour, which palette slot. */
  datatype Segment = Segment(imageIndex: int, pixelCount: int, rgb: int, palletIndex: int)

  /** One past the last offset a segment spans. */
  function End(g: Segment): int
  {
    g.imageIndex + g.pixelCount
  }

  predicate Covers(g: Segment, offset: int)
  {
    g.imageIndex <= offset < End(g)
  }

  /**
   * The segment list after one more pixel, of colour `c` at `offset`: the
   * pixel lengthens the last segment when that has the same colour, and
   * otherwise opens a new segment of length one at its own offset, with the
   * palette slot at its default, 0.
   */
  function Extend(r: seq<Segment>, offset: int, c: int): seq<Segment>
  {
    if r != [] && r[|r| - 1].rgb == c then
      r[..|r| - 1] + [r[|r| - 1].(pixelCount := r[|r| - 1].pixelCount + 1)]
    else
      r + [Segment(offset, 1, c, 0)]
  }

  /** The segment list the scan builds from the masked colours `s`. */
  function Runs(s: seq<int>): seq<Segment>
  {
    if s == [] then [] else Extend(Runs(s[..|s| - 1]), |s| - 1, s[|s| - 1])
  }

  /** The segments of a prefix one pixel longer. */
  lemma RunsStep(m: seq<int>, k: nat)
    requires k < |m|
    ensures Runs(m[..k + 1]) == Extend(Runs(m[..k]), k, m[k])
  {
    assert m[..k + 1][..k] == m[..k];
  }

  /** `r` cuts the offsets [0, n) into consecutive non-empty spans, in order. */
  ghost predicate Partition(r: seq<Segment>, n: int)
  {
    && (n == 0 <==> r == [])
    && (r != [] ==> r[0].imageIndex == 0 && End(r[|r| - 1]) == n)
    && (forall i :: 0 <= i < |r| ==> r[i].pixelCount >= 1)
    && (forall i :: 0 < i < |r| ==> r[i].imageIndex == End(r[i - 1]))
  }

  /** Every pixel of a segment has the segment's colour, and neighbouring segments differ in colour. */
  ghost predicate Uniform(r: seq<Segment>, s: seq<int>)
  {
    && (forall i :: 0 < i < |r| ==> r[i].rgb != r[i - 1].rgb)
    && (forall i, p :: 0 <= i < |r| && 0 <= p < |s| && Covers(r[i], p) ==> s[p] == r[i].rgb)
  }

  /**
   * The scan's segments partition the pixel offsets: the first starts at 0,
   * each starts where the previous ends, the last ends at the pixel count,
   * none is empty, and every slot is still the default 0.
   */
  lemma {:induction false} RunsPartition(s: seq<int>)
    ensures Partition(Runs(s), |s|)
    ensures |Runs(s)| <= |s|
    ensures forall i :: 0 <= i < |Runs(s)| ==> Runs(s)[i].palletIndex == 0
  {
    if s != [] {
      RunsPartition(s[..|s| - 1]);
      ExtendPartition(Runs(s[..|s| - 1]), |s| - 1, s[|s| - 1]);
    }
  }

  /** One more pixel at offset n turns a partition of [0, n) into one of [0, n + 1). */
  lemma ExtendPartition(r: seq<Segment>, n: int, c: int)
    requires Partition(r, n) && |r| <= n
    requires forall i :: 0 <= i < |r| ==> r[i].palletIndex == 0
    ensures var r' := Extend(r, n, c);
      Partition(r', n + 1) && |r'| <= n + 1 && forall i :: 0 <= i < |r'| ==> r'[i].palletIndex == 0
  {
    var r' := Extend(r, n, c);
    if r != [] && r[|r| - 1].rgb == c {
      assert |r'| == |r|;
      assert forall i :: 0 <= i < |r| - 1 ==> r'[i] == r[i];
      assert r'[|r| - 1] == r[|r| - 1].(pixelCount := r[|r| - 1].pixelCount + 1);
    } else {
      assert forall i :: 0 <= i < |r| ==> r'[i] == r[i];
      assert r'[|r|] == Segment(n, 1, c, 0);
    }
  }

  /** The scan's segments are maximal runs: each is one colour and neighbours differ. */
  lemma {:induction false} RunsUniform(s: seq<int>)
    ensures Uniform(Runs(s), s)
  {
    if s != [] {
      var s' := s[..|s| - 1];
      var c := s[|s| - 1];
      assert s == s' + [c];
      RunsUniform(s');
      RunsPartition(s');
      var r' := Runs(s');
      if r' != [] && r'[|r'| - 1].rgb == c {
        GrowUniform(r', s', c);
      } else {
        OpenUniform(r', s', c);
      }
    }
  }

  /** A pixel of the last segment's colour keeps the segments uniform by lengthening the last one. */
  lemma GrowUniform(r: seq<Segment>, s: seq<int>, c: int)
    requires Partition(r, |s|) && Uniform(r, s)
    requires r != [] && r[|r| - 1].rgb == c
    ensures Uniform(Extend(r, |s|, c), s + [c])
  {
    var n := |r|;
    var r', s' := Extend(r, |s|, c), s + [c];
    assert |r'| == n && r'[n - 1] == r[n - 1].(pixelCount := r[n - 1].pixelCount + 1);
    assert forall i :: 0 <= i < n - 1 ==> r'[i] == r[i];
    forall i, p | 0 <= i < n && 0 <= p < |s'| && Covers(r'[i], p)
      ensures s'[p] == r'[i].rgb
    {
      if i < n - 1 {
        PartitionBounds(r, |s|, i);
        assert Covers(r[i], p);
      } else if p < |s| {
        assert Covers(r[i], p);
      }
    }
  }

  /** A pixel of a new colour keeps the segments uniform by opening a segment of its own. */
  lemma OpenUniform(r: seq<Segment>, s: seq<int>, c: int)
    requires Partition(r, |s|) && Uniform(r, s)
    requires !(r != [] && r[|r| - 1].rgb == c)
    ensures Uniform(Extend(r, |s|, c), s + [c])
  {
    var n := |r|;
    var r', s' := Extend(r, |s|, c), s + [c];
    assert r' == r + [Segment(|s|, 1, c, 0)];
    forall i, p | 0 <= i < |r'| && 0 <= p < |s'| && Covers(r'[i], p)
      ensures s'[p] == r'[i].rgb
    {
      if i < n {
        PartitionBounds(r, |s|, i);
        assert Covers(r[i], p) && p < |s|;
      }
    }
  }

  /** A partition's spans are strictly ordered: an earlier span ends where or before a later one starts. */
  lemma {:induction false} PartitionOrdered(r: seq<Segment>, n: int, i: int, j: int)
    requires Partition(r, n)
    requires 0 <= i < j < |r|
    ensures End(r[i]) <= r[j].imageIndex
    decreases j - i
  {
    if i + 1 < j {
      PartitionOrdered(r, n, i + 1, j);
    }
  }

  /** Every segment ends where or before each later one starts. */
  ghost predicate Ordered(r: seq<Segment>)
  {
    forall i, j :: 0 <= i < j < |r| ==> End(r[i]) <= r[j].imageIndex
  }

  /** The segments of a partition are ordered. */
  lemma PartitionIsOrdered(r: seq<Segment>, n: int)
    requires Partition(r, n)
    ensures Ordered(r)
  {
    forall i, j | 0 <= i < j < |r|
      ensures End(r[i]) <= r[j].imageIndex
    {
      PartitionOrdered(r, n, i, j);
    }
  }

  /** Each offset of [0, n) lies in some segment of a partition of [0, n). */
  lemma {:induction false} PartitionCovers(r: seq<Segment>, n: int, p: int) returns (i: int)
    requires Partition(r, n)
    requires 0 <= p < n
    ensures 0 <= i < |r| && Covers(r[i], p)
  {
    i := |r| - 1;
    while r[i].imageIndex > p
      invariant 0 <= i < |r|
      invariant p < End(r[i])
      decreases i
    {
      i := i - 1;
    }
  }

  /** The spans of a partition of [0, n) stay inside [0, n), and only a lone segment spans all of it. */
  lemma PartitionBounds(r: seq<Segment>, n: int, i: int)
    requires Partition(r, n)
    requires 0 <= i < |r|
    ensures 0 <= r[i].imageIndex && End(r[i]) <= n
    ensures |r| > 1 ==> r[i].pixelCount < n
  {
    if i > 0 {
      PartitionOrdered(r, n, 0, i);
    }
    if i < |r| - 1 {
      PartitionOrdered(r, n, i, |r| - 1);
    }
  }
}
