/** Small grids worked through the encoder and, for one of them, back through the reader. */
module Scenarios {
  import opened Segments
  import opened Palette
  import opened Encoder
  import RoundTrip
  import Decoder

  const Red: int := 0xFF0000
  const Green: int := 0x00FF00

  /** Two pixels of one colour: one run, which holds slot 0 and is dropped. */
  lemma OneColorGrid()
    ensures Encode(2, 1, [Red, Red]) == Encoded(2, 1, 2, [Red], [])
  {
    var s := Masked([Red, Red]);
    assert s == [Red, Red];
    assert s[..0] == [] && s[..2] == s;
    RunsStep(s, 0);
    RunsStep(s, 1);
    var g := Segment(0, 2, Red, 0);
    assert Runs(s) == [g];
    assert Colors([g]) == [Red];
    assert [Red][..0] == [] && [Red][..1] == [Red];
    TallyStep([Red], 0);
    FillStep([Red], [Red], 0);
    assert Assign([g], [Red]) == [] + [g];
    TrimSnoc([], g);
  }


  /** Red, green, red scans into three one-pixel runs. */
  lemma RedGreenRedRuns()
    ensures Runs([Red, Green, Red])
         == [Segment(0, 1, Red, 0), Segment(1, 1, Green, 0), Segment(2, 1, Red, 0)]
  {
    var s := [Red, Green, Red];
    assert s[..0] == [] && s[..3] == s;
    RunsStep(s, 0);
    RunsStep(s, 1);
    RunsStep(s, 2);
  }

  /** Red has two segments to green's one, so red leads the tally. */
  lemma RedGreenRedTally()
    ensures Tally([Red, Green, Red]) == Leader(2, Red)
  {
    var rgbs := [Red, Green, Red];
    assert rgbs[..0] == [] && rgbs[..1] == [Red] && rgbs[..2] == [Red, Green] && rgbs[..3] == rgbs;
    assert multiset(rgbs[..3])[Red] == 2;
    TallyStep(rgbs, 0);
    TallyStep(rgbs, 1);
    TallyStep(rgbs, 2);
  }

  /** Filling after red adds green, once. */
  lemma RedGreenRedFill()
    ensures Fill([Red], [Red, Green, Red]) == [Red, Green]
  {
    var rgbs := [Red, Green, Red];
    assert rgbs[..2] == [Red, Green] && rgbs[..2][..1] == [Red] && rgbs[..2][..1][..0] == [];
    assert Fill([Red], [Red]) == [Red];
    assert Fill([Red], [Red, Green]) == [Red, Green];
  }

  /** Red leads the palette and green follows. */
  lemma RedGreenRedPallet()
    ensures Pallet([Red, Green, Red]) == [Red, Green]
  {
    RedGreenRedTally();
    RedGreenRedFill();
  }

  /** Only the green run has a slot other than 0. */
  lemma RedGreenRedKept()
    ensures Trim(Assign([Segment(0, 1, Red, 0), Segment(1, 1, Green, 0), Segment(2, 1, Red, 0)], [Red, Green]))
         == [Segment(1, 1, Green, 1)]
  {
    var a, b, c := Segment(0, 1, Red, 0), Segment(1, 1, Green, 1), Segment(2, 1, Red, 0);
    var slotted := Assign([Segment(0, 1, Red, 0), Segment(1, 1, Green, 0), Segment(2, 1, Red, 0)], [Red, Green]);
    assert [Red, Green][1..] == [Green];
    assert slotted[0] == a && slotted[1] == b && slotted[2] == c;
    assert slotted == [a, b] + [c];
    assert [a, b] == [a] + [b] && [a] == [] + [a];
    TrimSnoc([], a);
    TrimSnoc([a], b);
    TrimSnoc([a, b], c);
  }

  /**
   * Red, green, red: red has two segments and takes slot 0; only the green
   * segment, in slot 1, is kept.
   */
  lemma TwoColorGrid()
    ensures Encode(3, 1, [Red, Green, Red]) == Encoded(3, 1, 3, [Red, Green], [Segment(1, 1, Green, 1)])
  {
    var s := Masked([Red, Green, Red]);
    assert s == [Red, Green, Red];
    RedGreenRedRuns();
    var runs := [Segment(0, 1, Red, 0), Segment(1, 1, Green, 0), Segment(2, 1, Red, 0)];
    assert Colors(runs) == [Red, Green, Red];
    RedGreenRedPallet();
    RedGreenRedKept();
  }

  /** Red and green have one segment each; the strict comparison keeps red, seen first, in the lead. */
  lemma RedGreenTally()
    ensures Tally([Red, Green]) == Leader(1, Red)
  {
    var s := [Red, Green];
    assert s[..0] == [] && s[..1] == [Red] && s[..2] == s;
    assert multiset(s)[Green] == 1;
    TallyStep(s, 0);
    TallyStep(s, 1);
  }

  /** Red takes slot 0 and green slot 1. */
  lemma RedGreenPallet()
    ensures Pallet([Red, Green]) == [Red, Green]
  {
    RedGreenTally();
    RedGreenRedFill();
    assert [Red, Green, Red][..2] == [Red, Green];
    assert Fill([Red], [Red, Green]) == [Red, Green];
  }

  /**
   * Red then green: both colours have one segment, the first colour seen
   * takes slot 0, and its segment is dropped.
   */
  lemma TieGoesToFirstColor()
    ensures Encode(2, 1, [Red, Green]) == Encoded(2, 1, 2, [Red, Green], [Segment(1, 1, Green, 1)])
  {
    var s := Masked([Red, Green]);
    assert s == [Red, Green];
    assert s[..0] == [] && s[..2] == s;
    RunsStep(s, 0);
    RunsStep(s, 1);
    var a, b := Segment(0, 1, Red, 0), Segment(1, 1, Green, 0);
    assert Runs(s) == [a, b];
    assert Colors([a, b]) == s;
    RedGreenPallet();
    var b' := b.(palletIndex := 1);
    assert Assign([a, b], [Red, Green]) == [] + [a] + [b'];
    TrimSnoc([], a);
    TrimSnoc([a], b');
    assert [] + [a] == [a];
  }

  /**
   * Bits above the low 24 are dropped: opaque red, which getRGB returns as
   * the negative int 0xFFFF0000 = -0x10000, encodes like red.
   */
  lemma AlphaIgnored()
    ensures Encode(3, 1, [-0x10000, Green, Red]) == Encode(3, 1, [Red, Green, Red])
  {
    EncodeIgnoresHighBits(3, 1, [-0x10000, Green, Red], [Red, Green, Red]);
  }

  /**
   * Reading the red-green-red tables back: green from its segment, red from
   * palette slot 0, also past the right edge.
   */
  lemma TwoColorGridReads()
    ensures RoundTrip.Fits(Encode(3, 1, [Red, Green, Red]))
    ensures var image := RoundTrip.Emit(Encode(3, 1, [Red, Green, Red]));
      && Decoder.Readable(image, 0, 0) && Decoder.PixelOf(image, 0, 0) == Red
      && Decoder.Readable(image, 1, 0) && Decoder.PixelOf(image, 1, 0) == Green
      && Decoder.Readable(image, 2, 0) && Decoder.PixelOf(image, 2, 0) == Red
      && Decoder.Readable(image, 3, 0) && Decoder.PixelOf(image, 3, 0) == Red
  {
    var pixels := [Red, Green, Red];
    TwoColorGrid();
    var image := RoundTrip.Emit(Encode(3, 1, pixels));
    assert image == Decoder.TinyImage([Decoder.TinyImageData(1, 1, 1)], 1, [Red, Green], 3, 1);
  }

  /** An empty grid: no segments, and the palette is the tally's starting leader alone. */
  lemma EmptyGrid()
    ensures Encode(0, 0, []) == Encoded(0, 0, 0, [IntegerMaxValue], [])
  {
    EncodeEmpty(0, 0, []);
  }
}
