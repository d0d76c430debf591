/**
 * The TinyImage encoder (the body of the Java constructor): scan the grid
 * into segments, build the palette with the dominant colour in slot 0,
 * give every segment its slot, and drop the slot-0 segments.
 */
module Encoder {
  import opened Segments
  import opened Palette

  /** The colour of each segment, in segment order. */
  function Colors(r: seq<Segment>): (c: seq<int>)
    ensures |c| == |r|
    ensures forall i :: 0 <= i < |r| ==> c[i] == r[i].rgb
  {
    seq(|r|, i requires 0 <= i < |r| => r[i].rgb)
  }

  /** Every segment with its palletIndex set to the palette slot of its colour. */
  function Assign(r: seq<Segment>, pallet: seq<int>): seq<Segment>
  {
    seq(|r|, i requires 0 <= i < |r| => r[i].(palletIndex := IndexOf(pallet, r[i].rgb)))
  }

  /** The segments whose palletIndex is not 0, in their original order and unchanged. */
  function Trim(r: seq<Segment>): (t: seq<Segment>)
    ensures |t| <= |r|
    ensures forall g :: g in t <==> g in r && g.palletIndex != 0
    ensures (exists i :: 0 <= i < |r| && r[i].palletIndex == 0) ==> |t| < |r|
  {
    if r == [] then []
    else
      var t := Trim(r[..|r| - 1]);
      var g := r[|r| - 1];
      assert forall h :: h in r <==> h in r[..|r| - 1] || h == g by {
        assert r == r[..|r| - 1] + [g];
      }
      if g.palletIndex != 0 then t + [g] else t
  }

  /** What the constructor leaves in the TinyImage fields, as values. */
  datatype Encoded = Encoded(width: int, height: int, pixelCount: int, pallet: seq<int>, segments: seq<Segment>)

  /** The encoding of a w-by-h grid given row by row (pixel (col, row) at row * w + col). */
  function Encode(w: nat, h: nat, pixels: seq<int>): Encoded
    requires |pixels| == w * h
  {
    var runs := Runs(Masked(pixels));
    var pallet := Pallet(Colors(runs));
    Encoded(w, h, w * h, pallet, Trim(Assign(runs, pallet)))
  }

  /** Dropping slot-0 segments commutes with concatenation, so it keeps their order. */
  lemma {:induction false} TrimConcat(a: seq<Segment>, b: seq<Segment>)
    ensures Trim(a + b) == Trim(a) + Trim(b)
    decreases |b|
  {
    if b != [] {
      var b', x := b[..|b| - 1], b[|b| - 1];
      assert b == b' + [x];
      assert a + b == (a + b') + [x];
      TrimSnoc(a + b', x);
      TrimSnoc(b', x);
      TrimConcat(a, b');
    } else {
      assert a + b == a;
    }
  }

  /** One more segment is kept exactly when its slot is not 0. */
  lemma TrimSnoc(r: seq<Segment>, g: Segment)
    ensures Trim(r + [g]) == if g.palletIndex != 0 then Trim(r) + [g] else Trim(r)
  {
    assert (r + [g])[..|r|] == r;
  }

  /** A segment starting after every segment of an ordered sequence ends extends it in order. */
  lemma OrderedSnoc(t: seq<Segment>, g: Segment)
    requires Ordered(t)
    requires forall x :: x in t ==> End(x) <= g.imageIndex
    ensures Ordered(t + [g])
  {
    var u := t + [g];
    forall i, j | 0 <= i < j < |u|
      ensures End(u[i]) <= u[j].imageIndex
    {
      if j == |t| {
        assert u[i] == t[i] && t[i] in t;
      } else {
        assert u[i] == t[i] && u[j] == t[j];
      }
    }
  }

  /** Dropping segments keeps the survivors ordered. */
  lemma {:induction false} TrimOrdered(r: seq<Segment>)
    requires Ordered(r)
    ensures Ordered(Trim(r))
  {
    if r != [] {
      var r', g := r[..|r| - 1], r[|r| - 1];
      assert r == r' + [g];
      assert Ordered(r') by {
        forall i, j | 0 <= i < j < |r'|
          ensures End(r'[i]) <= r'[j].imageIndex
        {
          assert r'[i] == r[i] && r'[j] == r[j];
        }
      }
      TrimOrdered(r');
      TrimSnoc(r', g);
      if g.palletIndex != 0 {
        forall x | x in Trim(r')
          ensures End(x) <= g.imageIndex
        {
          var i :| 0 <= i < |r'| && r'[i] == x;
          assert r[i] == x;
        }
        OrderedSnoc(Trim(r'), g);
      }
    }
  }

  /** The kept segments of an encoding are ordered: no two share a pixel. */
  lemma EncodeOrdered(w: nat, h: nat, pixels: seq<int>)
    requires |pixels| == w * h
    ensures Ordered(Encode(w, h, pixels).segments)
  {
    var s := Masked(pixels);
    var runs := Runs(s);
    var slotted := Assign(runs, Pallet(Colors(runs)));
    RunsPartition(s);
    PartitionIsOrdered(runs, |s|);
    assert Ordered(slotted);
    TrimOrdered(slotted);
  }

  /** An empty grid gives no segments and the one-entry palette [Integer.MAX_VALUE]. */
  lemma EncodeEmpty(w: nat, h: nat, pixels: seq<int>)
    requires |pixels| == w * h
    requires w * h == 0
    ensures Encode(w, h, pixels).pixelCount == 0
    ensures Encode(w, h, pixels).segments == []
    ensures Encode(w, h, pixels).pallet == [IntegerMaxValue]
  {
    assert Masked(pixels) == [];
  }

  /**
   * Every segment, trimmed or not, gets the slot whose palette entry is its
   * own colour; the kept segments are the ones whose slot is not 0.
   */
  lemma EncodeSlots(w: nat, h: nat, pixels: seq<int>)
    requires |pixels| == w * h
    ensures var runs := Runs(Masked(pixels));
      var e := Encode(w, h, pixels);
      && (forall i :: 0 <= i < |runs| ==>
            var k := Assign(runs, e.pallet)[i].palletIndex;
            0 <= k < |e.pallet| && e.pallet[k] == runs[i].rgb)
      && (forall g :: g in e.segments ==> 1 <= g.palletIndex < |e.pallet| && e.pallet[g.palletIndex] == g.rgb)
  {
    var runs := Runs(Masked(pixels));
    var rgbs := Colors(runs);
    var e := Encode(w, h, pixels);
    PalletShape(rgbs);
    assert forall i :: 0 <= i < |runs| ==> rgbs[i] in rgbs;
  }

  /** A run whose colour leads the palette gets slot 0, so trimming drops at least that run. */
  lemma SlotZeroDropped(runs: seq<Segment>, pallet: seq<int>, i: int)
    requires 0 <= i < |runs| && |pallet| >= 1 && pallet[0] == runs[i].rgb
    ensures |Trim(Assign(runs, pallet))| < |runs|
  {
    assert Assign(runs, pallet)[i].palletIndex == 0;
  }

  /** A run spanning offset p gets the palette slot holding the colour of pixel p. */
  lemma AssignExplains(s: seq<int>, pallet: seq<int>, i: int, p: int)
    requires 0 <= i < |Runs(s)| && 0 <= p < |s| && Covers(Runs(s)[i], p)
    requires Runs(s)[i].rgb in pallet
    ensures var k := Assign(Runs(s), pallet)[i].palletIndex; 0 <= k < |pallet| && pallet[k] == s[p]
  {
    RunsUniform(s);
  }

  /**
   * Kept segments and a palette give offset p colour c: a kept segment
   * spanning p names a palette slot holding c, and when no kept segment spans
   * p, palette slot 0 (the implicit background) holds c.
   */
  ghost predicate Explains(segments: seq<Segment>, pallet: seq<int>, p: int, c: int)
  {
    && |pallet| >= 1
    && (forall g :: g in segments && Covers(g, p) ==>
          0 <= g.palletIndex < |pallet| && pallet[g.palletIndex] == c)
    && ((forall g :: g in segments ==> !Covers(g, p)) ==> pallet[0] == c)
  }

  /** The palette has a slot 0 and holds the colour of every segment. */
  lemma PalletHoldsColors(runs: seq<Segment>)
    ensures |Pallet(Colors(runs))| >= 1
    ensures forall i :: 0 <= i < |runs| ==> runs[i].rgb in Pallet(Colors(runs))
  {
    var rgbs := Colors(runs);
    PalletShape(rgbs);
    forall i | 0 <= i < |runs|
      ensures runs[i].rgb in Pallet(rgbs)
    {
      assert rgbs[i] in rgbs;
    }
  }

  /**
   * With a palette holding every run colour, slotting the runs and dropping
   * the slot-0 ones leaves every pixel explained: a kept run spanning it has
   * its colour's slot, and a pixel spanned only by a dropped run has the
   * colour of slot 0.
   */
  lemma TrimExplains(s: seq<int>, pallet: seq<int>, p: int)
    requires 0 <= p < |s|
    requires |pallet| >= 1 && forall i :: 0 <= i < |Runs(s)| ==> Runs(s)[i].rgb in pallet
    ensures Explains(Trim(Assign(Runs(s), pallet)), pallet, p, s[p])
  {
    var runs := Runs(s);
    var slotted := Assign(runs, pallet);
    var kept := Trim(slotted);
    forall g | g in kept && Covers(g, p)
      ensures 0 <= g.palletIndex < |pallet| && pallet[g.palletIndex] == s[p]
    {
      var i :| 0 <= i < |slotted| && slotted[i] == g;
      AssignExplains(s, pallet, i, p);
    }
    if forall g :: g in kept ==> !Covers(g, p) {
      RunsPartition(s);
      var i := PartitionCovers(runs, |s|, p);
      AssignExplains(s, pallet, i, p);
    }
  }

  /** Every pixel is explained by the encoder's output, with its masked colour. */
  lemma EncodeExplainsPixels(w: nat, h: nat, pixels: seq<int>, p: int)
    requires |pixels| == w * h
    requires 0 <= p < w * h
    ensures var e := Encode(w, h, pixels); Explains(e.segments, e.pallet, p, Mask(pixels[p]))
  {
    var s := Masked(pixels);
    var runs := Runs(s);
    var pallet := Pallet(Colors(runs));
    PalletHoldsColors(runs);
    TrimExplains(s, pallet, p);
  }

  /** Bits above the low 24 never matter: grids that agree after masking encode identically. */
  lemma EncodeIgnoresHighBits(w: nat, h: nat, a: seq<int>, b: seq<int>)
    requires |a| == w * h && |b| == w * h
    requires forall i :: 0 <= i < w * h ==> (a[i] - b[i]) % ColorRange == 0
    ensures Encode(w, h, a) == Encode(w, h, b)
  {
    forall i | 0 <= i < w * h
      ensures Mask(a[i]) == Mask(b[i])
    {
      MaskCongruent(a[i], b[i]);
    }
    assert Masked(a) == Masked(b);
  }

  /** Two pixel values mask to the same colour exactly when they agree in the low 24 bits. */
  lemma MaskCongruent(p: int, q: int)
    ensures Mask(p) == Mask(q) <==> (p - q) % ColorRange == 0
  {
    var k, l := p / ColorRange, q / ColorRange;
    assert p == k * ColorRange + Mask(p);
    assert q == l * ColorRange + Mask(q);
    assert p - q == (k - l) * ColorRange + (Mask(p) - Mask(q));
    if Mask(p) >= Mask(q) {
      assert (p - q) % ColorRange == Mask(p) - Mask(q);
    } else {
      assert p - q == (k - l - 1) * ColorRange + (ColorRange + Mask(p) - Mask(q));
      assert (p - q) % ColorRange == ColorRange + Mask(p) - Mask(q);
    }
  }

  /** The Java ImageSegment: a mutable run record. */
  class ImageSegment {
    var imageIndex: int
    var pixelCount: int
    var rgb: int
    var palletIndex: int

    constructor (iIndex: int, rgb: int)
      ensures imageIndex == iIndex && this.rgb == rgb
      ensures pixelCount == 0 && palletIndex == 0
    {
      imageIndex := iIndex;
      this.rgb := rgb;
      pixelCount := 0;
      palletIndex := 0;
    }

    method Increment()
      modifies this
      ensures pixelCount == old(pixelCount) + 1
      ensures imageIndex == old(imageIndex) && rgb == old(rgb) && palletIndex == old(palletIndex)
    {
      pixelCount := pixelCount + 1;
    }

    function Value(): Segment
      reads this
    {
      Segment(imageIndex, pixelCount, rgb, palletIndex)
    }
  }

  /** The objects `objs` currently hold the values `vals`, position by position. */
  ghost predicate Models(objs: seq<ImageSegment>, vals: seq<Segment>)
    reads objs
  {
    |objs| == |vals| && forall i :: 0 <= i < |objs| ==> objs[i].Value() == vals[i]
  }

  /** No object appears twice in the list. */
  ghost predicate Distinct(objs: seq<ImageSegment>)
  {
    forall i, j :: 0 <= i < j < |objs| ==> objs[i] != objs[j]
  }

  /** Row-major offsets of in-range coordinates lie inside the grid. */
  lemma RowMajor(row: nat, col: nat, w: nat, h: nat)
    requires row < h && col <= w
    ensures col < w ==> row * w + col < w * h
    ensures row * w + w == (row + 1) * w <= w * h
  {
    assert (row + 1) * w == row * w + w;
    assert (row + 1) * w <= h * w;
  }

  /** BufferedImage.getRGB(col, row) on a grid stored row by row. */
  function GetRGB(w: nat, h: nat, pixels: seq<int>, col: nat, row: nat): int
    requires |pixels| == w * h && col < w && row < h
  {
    RowMajor(row, col, w, h);
    pixels[row * w + col]
  }

  /**
   * One pixel of the scan: a colour change (or the first pixel) opens a new
   * segment at the pixel's offset; then the current segment counts the pixel.
   */
  method AddPixel(segs: seq<ImageSegment>, current: ImageSegment?, offset: int, thisRGB: int, ghost vals: seq<Segment>)
    returns (segs': seq<ImageSegment>, current': ImageSegment)
    requires Models(segs, vals) && Distinct(segs)
    requires current == null <==> segs == []
    requires current != null ==> current == segs[|segs| - 1]
    modifies current
    ensures Models(segs', Extend(vals, offset, thisRGB)) && Distinct(segs')
    ensures current' == segs'[|segs'| - 1] && (current' == current || fresh(current'))
    ensures forall g :: g in segs' ==> g in segs || fresh(g)
  {
    if current == null || thisRGB != current.rgb {
      current' := new ImageSegment(offset, thisRGB);
      segs' := segs + [current'];
    } else {
      segs', current' := segs, current;
    }
    ghost var n := |segs'|;
    assert forall i :: 0 <= i < n - 1 ==> segs'[i] != current';
    current'.Increment();
    assert forall i :: 0 <= i < n - 1 ==> segs'[i].Value() == old(segs'[i].Value());
  }

  /** Step 1: scan the grid row by row into segments of one masked colour. */
  method ScanSegments(w: nat, h: nat, pixels: seq<int>) returns (segs: seq<ImageSegment>)
    requires |pixels| == w * h
    ensures Models(segs, Runs(Masked(pixels))) && Distinct(segs)
    ensures forall g :: g in segs ==> fresh(g)
  {
    ghost var m := Masked(pixels);
    segs := [];
    var current: ImageSegment? := null;
    for row := 0 to h
      invariant Models(segs, Runs(m[..row * w])) && Distinct(segs)
      invariant current == null <==> segs == []
      invariant current != null ==> current == segs[|segs| - 1] && fresh(current)
      invariant forall g :: g in segs ==> fresh(g)
    {
      RowMajor(row, 0, w, h);
      segs, current := ScanRow(w, h, pixels, row, segs, current, m);
    }
    assert m[..h * w] == m;
  }

  /** One row of step 1: every pixel of the row, left to right. */
  method ScanRow(w: nat, h: nat, pixels: seq<int>, row: nat, segs: seq<ImageSegment>, current: ImageSegment?,
                 ghost m: seq<int>)
    returns (segs': seq<ImageSegment>, current': ImageSegment?)
    requires |pixels| == w * h && row < h && m == Masked(pixels)
    requires row * w + w <= |m|
    requires Models(segs, Runs(m[..row * w])) && Distinct(segs)
    requires current == null <==> segs == []
    requires current != null ==> current == segs[|segs| - 1]
    modifies current
    ensures Models(segs', Runs(m[..row * w + w])) && Distinct(segs')
    ensures current' == null <==> segs' == []
    ensures current' != null ==> current' == segs'[|segs'| - 1] && (current' == current || fresh(current'))
    ensures forall g :: g in segs' ==> g in segs || fresh(g)
  {
    var start := row * w;
    segs', current' := segs, current;
    for col := 0 to w
      invariant Models(segs', Runs(m[..start + col])) && Distinct(segs')
      invariant current' == null <==> segs' == []
      invariant current' != null ==> current' == segs'[|segs'| - 1] && (current' == current || fresh(current'))
      invariant forall g :: g in segs' ==> g in segs || fresh(g)
    {
      var offset := start + col;
      var thisRGB := Mask(GetRGB(w, h, pixels, col, row));
      RunsStep(m, offset);
      segs', current' := AddPixel(segs', current', offset, thisRGB, Runs(m[..offset]));
    }
  }

  /** Step 2a: count segments per colour and keep the first colour to reach the highest count. */
  method CountSegments(segs: seq<ImageSegment>, ghost runs: seq<Segment>)
    returns (highestSegmentCount: int, rgbWithHighestSegmentCount: int)
    requires Models(segs, runs)
    ensures Leader(highestSegmentCount, rgbWithHighestSegmentCount) == Tally(Colors(runs))
  {
    ghost var rgbs := Colors(runs);
    highestSegmentCount := -1;
    rgbWithHighestSegmentCount := IntegerMaxValue;
    var rgbCount: map<int, int> := map[];
    for k := 0 to |segs|
      invariant Leader(highestSegmentCount, rgbWithHighestSegmentCount) == Tally(rgbs[..k])
      invariant forall c :: multiset(rgbs[..k])[c] == if c in rgbCount then rgbCount[c] else 0
    {
      var rgb := segs[k].rgb;
      assert rgb == rgbs[k];
      var count := 0;
      if rgb in rgbCount {
        count := rgbCount[rgb];
      }
      assert count == multiset(rgbs[..k])[rgb];
      count := count + 1;
      rgbCount := rgbCount[rgb := count];
      assert rgbs[..k + 1] == rgbs[..k] + [rgb];
      assert count == multiset(rgbs[..k + 1])[rgb];
      TallyStep(rgbs, k);
      if count > highestSegmentCount {
        highestSegmentCount := count;
        rgbWithHighestSegmentCount := rgb;
      }
    }
    assert rgbs[..|segs|] == rgbs;
  }

  /**
   * `vals` is `runs` with segments 0..k-1 given their slot in `pallet`, and
   * every colour of those segments is in `pallet`.
   */
  ghost predicate SlotsUpTo(vals: seq<Segment>, runs: seq<Segment>, pallet: seq<int>, k: int)
  {
    && |vals| == |runs| && 0 <= k <= |runs|
    && (forall i :: 0 <= i < k ==> runs[i].rgb in pallet)
    && (forall i :: 0 <= i < k ==> vals[i] == runs[i].(palletIndex := IndexOf(pallet, runs[i].rgb)))
    && (forall i :: k <= i < |runs| ==> vals[i] == runs[i])
  }

  /**
   * Step 2b: start the palette with the leader, append each unseen segment
   * colour, and store in every segment the slot of its colour.
   */
  method AssignPalletIndexes(segs: seq<ImageSegment>, leader: int, ghost runs: seq<Segment>)
    returns (pallet: seq<int>)
    requires Models(segs, runs) && Distinct(segs)
    modifies set g | g in segs
    ensures pallet == Fill([leader], Colors(runs))
    ensures Models(segs, Assign(runs, pallet))
  {
    ghost var vals := runs;
    pallet := [leader];
    for k := 0 to |segs|
      invariant pallet == Fill([leader], Colors(runs)[..k])
      invariant Models(segs, vals) && SlotsUpTo(vals, runs, pallet, k)
    {
      pallet, vals := AssignSlot(segs, k, leader, pallet, runs, vals);
    }
    assert Colors(runs)[..|segs|] == Colors(runs);
  }

  /** One round of step 2b, for segment k. */
  method AssignSlot(segs: seq<ImageSegment>, k: int, leader: int, pallet: seq<int>,
                    ghost runs: seq<Segment>, ghost vals: seq<Segment>)
    returns (pallet': seq<int>, ghost vals': seq<Segment>)
    requires 0 <= k < |segs|
    requires Models(segs, vals) && Distinct(segs) && SlotsUpTo(vals, runs, pallet, k)
    requires pallet == Fill([leader], Colors(runs)[..k])
    modifies segs[k]
    ensures pallet' == Fill([leader], Colors(runs)[..k + 1])
    ensures Models(segs, vals') && SlotsUpTo(vals', runs, pallet', k + 1)
  {
    var segment := segs[k];
    assert segment.Value() == vals[k] == runs[k];
    FillStep([leader], Colors(runs), k);
    pallet' := pallet;
    if segment.rgb !in pallet' {
      pallet' := pallet' + [segment.rgb];
    }
    vals' := vals[k := vals[k].(palletIndex := IndexOf(pallet', segment.rgb))];
    SlotStep(vals, runs, pallet, pallet', k);
    assert forall i :: 0 <= i < |segs| && i != k ==> segs[i] != segment;
    segment.palletIndex := IndexOf(pallet', segment.rgb);
  }

  /** Giving segment k its slot, after its colour has been added to the palette if new. */
  lemma SlotStep(vals: seq<Segment>, runs: seq<Segment>, pallet: seq<int>, pallet': seq<int>, k: int)
    requires SlotsUpTo(vals, runs, pallet, k) && k < |runs|
    requires pallet' == if runs[k].rgb in pallet then pallet else pallet + [runs[k].rgb]
    ensures SlotsUpTo(vals[k := vals[k].(palletIndex := IndexOf(pallet', runs[k].rgb))], runs, pallet', k + 1)
  {
    assert pallet'[..|pallet|] == pallet;
    KeepSlots(pallet, pallet', runs, k);
  }

  /** Appending to the palette keeps the slot of every colour already in it. */
  lemma KeepSlots(oldPallet: seq<int>, pallet: seq<int>, runs: seq<Segment>, k: nat)
    requires k <= |runs|
    requires |oldPallet| <= |pallet| && pallet[..|oldPallet|] == oldPallet
    requires forall i :: 0 <= i < k ==> runs[i].rgb in oldPallet
    ensures forall i :: 0 <= i < k ==> IndexOf(pallet, runs[i].rgb) == IndexOf(oldPallet, runs[i].rgb)
  {
    assert oldPallet + pallet[|oldPallet|..] == pallet;
    forall i | 0 <= i < k
      ensures IndexOf(pallet, runs[i].rgb) == IndexOf(oldPallet, runs[i].rgb)
    {
      IndexOfPrefix(oldPallet, pallet[|oldPallet|..], runs[i].rgb);
    }
  }

  /** Step 3: keep, in order, the segments whose slot is not 0. */
  method TrimSegments(segs: seq<ImageSegment>, ghost vals: seq<Segment>) returns (trimmed: seq<ImageSegment>)
    requires Models(segs, vals) && Distinct(segs)
    ensures Models(trimmed, Trim(vals)) && Distinct(trimmed)
    ensures forall g :: g in trimmed ==> g in segs
  {
    trimmed := [];
    for k := 0 to |segs|
      invariant KeptUpTo(trimmed, segs, vals, k)
    {
      trimmed := KeepSegment(trimmed, segs, vals, k);
    }
    assert vals[..|segs|] == vals;
  }

  /**
   * `trimmed` holds, in order, the segments among the first k whose slot is
   * not 0, each once, and none of the later ones.
   */
  ghost predicate KeptUpTo(trimmed: seq<ImageSegment>, segs: seq<ImageSegment>, vals: seq<Segment>, k: int)
    reads trimmed, segs
  {
    && Models(segs, vals) && Distinct(segs) && 0 <= k <= |segs|
    && Models(trimmed, Trim(vals[..k])) && Distinct(trimmed)
    && (forall g :: g in trimmed ==> g in segs)
    && (forall j :: k <= j < |segs| ==> segs[j] !in trimmed)
  }

  /** One round of step 3, for segment k. */
  method KeepSegment(trimmed: seq<ImageSegment>, segs: seq<ImageSegment>, ghost vals: seq<Segment>, k: int)
    returns (trimmed': seq<ImageSegment>)
    requires k < |segs| && KeptUpTo(trimmed, segs, vals, k)
    ensures KeptUpTo(trimmed', segs, vals, k + 1)
  {
    assert vals[..k + 1] == vals[..k] + [vals[k]];
    TrimSnoc(vals[..k], vals[k]);
    trimmed' := trimmed;
    if segs[k].palletIndex != 0 {
      ModelsSnoc(trimmed, Trim(vals[..k]), segs[k], vals[k]);
      trimmed' := trimmed + [segs[k]];
    }
  }

  /** Appending an object and its value keeps the objects modelling the values. */
  lemma ModelsSnoc(objs: seq<ImageSegment>, vals: seq<Segment>, o: ImageSegment, v: Segment)
    requires Models(objs, vals) && o.Value() == v
    ensures Models(objs + [o], vals + [v])
  {
  }

  /** The Java TinyImage object, as its constructor leaves it. */
  class TinyImage {
    var pallet: seq<int>
    var segments: seq<ImageSegment>
    var width: int
    var height: int
    var pixelCount: int

    constructor (w: nat, h: nat, pixels: seq<int>)
      requires |pixels| == w * h
      ensures width == w && height == h && pixelCount == w * h
      ensures pallet == Encode(w, h, pixels).pallet
      ensures Models(segments, Encode(w, h, pixels).segments) && Distinct(segments)
      ensures forall g :: g in segments ==> fresh(g)
    {
      ghost var runs := Runs(Masked(pixels));
      var segs := ScanSegments(w, h, pixels);
      var highestSegmentCount, rgbWithHighestSegmentCount := CountSegments(segs, runs);
      var pal := AssignPalletIndexes(segs, rgbWithHighestSegmentCount, runs);
      var trimmed := TrimSegments(segs, Assign(runs, pal));
      width, height, pixelCount := w, h, w * h;
      pallet, segments := pal, trimmed;
    }
  }
}
