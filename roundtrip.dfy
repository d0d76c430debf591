/**
 * The two halves together: the tables the encoder's header describes,
 * read back through tinyImageGetPixel, give every pixel its masked colour.
 */
module RoundTrip {
  import opened Segments
  import opened Palette
  import opened Encoder
  import Decoder

  /** The encoder's output fits the C types of the header: uint16 fields and counts, uint32 colours. */
  ghost predicate Fits(e: Encoded)
  {
    && 0 <= e.width < 0x1_0000 && 0 <= e.height < 0x1_0000
    && |e.segments| < 0x1_0000
    && (forall g :: g in e.segments ==>
          0 <= g.imageIndex < 0x1_0000 && 0 <= g.pixelCount < 0x1_0000 && 0 <= g.palletIndex < 0x1_0000)
    && (forall c :: c in e.pallet ==> 0 <= c < 0x1_0000_0000)
  }

  /** A header table entry describes a segment: same start, same length, same slot. */
  predicate Describes(d: Decoder.TinyImageData, g: Segment)
  {
    d.pixelIndex == g.imageIndex && d.pixelCount == g.pixelCount && d.palletIndex == g.palletIndex
  }

  /**
   * The tables the generated header declares: one `{imageIndex, pixelCount,
   * palletIndex}` entry per kept segment, the palette, the segment count,
   * the width and the height.
   */
  function Emit(e: Encoded): (image: Decoder.TinyImage)
    requires Fits(e)
    ensures image.dataLength == |image.data| == |e.segments|
    ensures forall i :: 0 <= i < |e.segments| ==> Describes(image.data[i], e.segments[i])
    ensures image.pallet == e.pallet
    ensures image.width == e.width && image.height == e.height
  {
    var data := seq(|e.segments|, i requires 0 <= i < |e.segments| =>
      assert e.segments[i] in e.segments;
      Decoder.TinyImageData(e.segments[i].imageIndex, e.segments[i].pixelCount, e.segments[i].palletIndex));
    var pallet := seq<Decoder.uint32>(|e.pallet|, i requires 0 <= i < |e.pallet| =>
      assert e.pallet[i] in e.pallet;
      e.pallet[i] as Decoder.uint32);
    Decoder.TinyImage(data, |e.segments|, pallet, e.width, e.height)
  }

  /** Every run has a 24-bit colour when every pixel has one. */
  lemma RunColors(s: seq<int>)
    requires forall p :: 0 <= p < |s| ==> 0 <= s[p] < ColorRange
    ensures forall i :: 0 <= i < |Runs(s)| ==> 0 <= Runs(s)[i].rgb < ColorRange
  {
    var runs := Runs(s);
    RunsPartition(s);
    RunsUniform(s);
    forall i | 0 <= i < |runs|
      ensures 0 <= runs[i].rgb < ColorRange
    {
      PartitionBounds(runs, |s|, i);
      assert Covers(runs[i], runs[i].imageIndex);
    }
  }

  /** Every palette entry fits uint32: the segment colours are 24-bit, the empty-image sentinel is Integer.MAX_VALUE. */
  lemma PalletFits(s: seq<int>)
    requires forall p :: 0 <= p < |s| ==> 0 <= s[p] < ColorRange
    ensures forall c :: c in Pallet(Colors(Runs(s))) ==> 0 <= c < 0x1_0000_0000
  {
    var rgbs := Colors(Runs(s));
    RunColors(s);
    PalletShape(rgbs);
    TallyLeader(rgbs);
    forall c | c in Pallet(rgbs)
      ensures 0 <= c < 0x1_0000_0000
    {
      if c in rgbs {
        var i :| 0 <= i < |rgbs| && rgbs[i] == c;
      }
    }
  }

  /**
   * Kept segments of a partition of [0, n) start inside it, and are shorter
   * than n unless the partition is a single dropped run; a kept segment's
   * slot is a palette position.
   */
  lemma TrimBounds(runs: seq<Segment>, pallet: seq<int>, n: int)
    requires Partition(runs, n)
    requires forall i :: 0 <= i < |runs| ==> runs[i].rgb in pallet
    requires |runs| == 1 ==> Trim(Assign(runs, pallet)) == []
    ensures forall g :: g in Trim(Assign(runs, pallet)) ==>
      0 <= g.imageIndex < n && 1 <= g.pixelCount < n && 0 <= g.palletIndex < |pallet|
  {
    var slotted := Assign(runs, pallet);
    forall g | g in Trim(slotted)
      ensures 0 <= g.imageIndex < n && 1 <= g.pixelCount < n && 0 <= g.palletIndex < |pallet|
    {
      var j :| 0 <= j < |slotted| && slotted[j] == g;
      PartitionBounds(runs, n, j);
    }
  }

  /**
   * A grid of at most 65536 pixels whose sides fit uint16 encodes into
   * tables whose every offset, count, slot and colour fits its C type.
   */
  lemma EncodedFits(w: nat, h: nat, pixels: seq<int>)
    requires |pixels| == w * h
    requires w < 0x1_0000 && h < 0x1_0000 && w * h <= 0x1_0000
    ensures Fits(Encode(w, h, pixels))
  {
    var s := Masked(pixels);
    var runs := Runs(s);
    var rgbs := Colors(runs);
    var pallet := Pallet(rgbs);
    var slotted := Assign(runs, pallet);
    var e := Encode(w, h, pixels);
    assert e.pallet == pallet && e.segments == Trim(slotted);
    PalletFits(s);
    RunsPartition(s);
    if s == [] {
      assert slotted == [];
    } else {
      PalletShape(rgbs);
      TallyLeader(rgbs);
      var i :| 0 <= i < |rgbs| && rgbs[i] == pallet[0];
      SlotZeroDropped(runs, pallet, i);
      PalletSize(rgbs);
      PalletHoldsColors(runs);
      TrimBounds(runs, pallet, |s|);
    }
  }

  /**
   * Reading the emitted tables gives colour c at (x, y) whenever the encoded
   * value explains that pixel as c: through a kept segment spanning it, or
   * through palette slot 0 when none does.
   */
  lemma DecodeExplained(e: Encoded, x: Decoder.uint16, y: Decoder.uint16, c: int)
    requires Fits(e) && x < e.width && y < e.height
    requires y * e.width + x < 0x8000_0000
    requires Explains(e.segments, e.pallet, y * e.width + x, c)
    ensures Decoder.Readable(Emit(e), x, y) && Decoder.PixelOf(Emit(e), x, y) == c
  {
    var image := Emit(e);
    var p := y * e.width + x;
    assert Decoder.PixelIndex(image, x, y) == p;
    var k := Decoder.LastSpanning(image.data, image.dataLength, p);
    if k >= 0 {
      var g := e.segments[k];
      assert Describes(image.data[k], g);
      assert g in e.segments && Covers(g, p);
    } else {
      forall g | g in e.segments
        ensures !Covers(g, p)
      {
        var t :| 0 <= t < |e.segments| && e.segments[t] == g;
        assert Describes(image.data[t], g);
        assert !Decoder.Spans(image.data[t], p);
      }
    }
  }

  /**
   * The tables the encoder emits never have two entries spanning one
   * pixel, so the reader's backward scan finds the same entry as a forward
   * scan would: the only one spanning it.
   */
  lemma EmittedScanDirection(w: nat, h: nat, pixels: seq<int>, p: int)
    requires |pixels| == w * h
    requires w < 0x1_0000 && h < 0x1_0000 && w * h <= 0x1_0000
    ensures Fits(Encode(w, h, pixels))
    ensures var image := Emit(Encode(w, h, pixels));
      && Decoder.Disjoint(image.data, image.dataLength)
      && Decoder.LastSpanning(image.data, image.dataLength, p) == Decoder.FirstSpanning(image.data, image.dataLength, p)
  {
    EncodedFits(w, h, pixels);
    var e := Encode(w, h, pixels);
    var image := Emit(e);
    EncodeOrdered(w, h, pixels);
    forall i, j | 0 <= i < j < image.dataLength
      ensures image.data[i].pixelIndex + image.data[i].pixelCount <= image.data[j].pixelIndex
    {
      assert Describes(image.data[i], e.segments[i]) && Describes(image.data[j], e.segments[j]);
    }
    Decoder.ScanDirectionIrrelevant(image.data, image.dataLength, p);
  }

  /**
   * Every pixel of the emitted image can be read, whether inside the grid
   * or not, and for an empty grid too: the palette always has a slot 0.
   */
  lemma EmittedReadable(w: nat, h: nat, pixels: seq<int>, x: Decoder.uint16, y: Decoder.uint16)
    requires |pixels| == w * h
    requires w < 0x1_0000 && h < 0x1_0000 && w * h <= 0x1_0000
    ensures Fits(Encode(w, h, pixels))
    ensures Decoder.Readable(Emit(Encode(w, h, pixels)), x, y)
  {
    EncodedFits(w, h, pixels);
    if x < w && y < h {
      RoundTrip(w, h, pixels, x, y);
    } else {
      PalletHoldsColors(Runs(Masked(pixels)));
    }
  }

  /**
   * Round trip: for every in-range (x, y), reading the emitted tables with
   * tinyImageGetPixel gives the input pixel at (x, y) masked to 24 bits.
   */
  lemma RoundTrip(w: nat, h: nat, pixels: seq<int>, x: Decoder.uint16, y: Decoder.uint16)
    requires |pixels| == w * h
    requires w < 0x1_0000 && h < 0x1_0000 && w * h <= 0x1_0000
    requires x < w && y < h
    ensures Fits(Encode(w, h, pixels))
    ensures var image := Emit(Encode(w, h, pixels));
      && Decoder.Readable(image, x, y)
      && Decoder.PixelOf(image, x, y) == Mask(GetRGB(w, h, pixels, x, y))
  {
    RowMajor(y, x, w, h);
    var p := y * w + x;
    assert p < |pixels|;
    assert GetRGB(w, h, pixels, x, y) == pixels[p];
    EncodedFits(w, h, pixels);
    var e := Encode(w, h, pixels);
    assert e.width == w && e.height == h;
    EncodeExplainsPixels(w, h, pixels, p);
    DecodeExplained(e, x, y, Mask(pixels[p]));
  }
}
