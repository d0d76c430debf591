# TinyImage in Dafny

TinyImage packs a small RGB picture into run-length tables for a
microcontroller, which reads them back with a single C function.

The **encoder** is the Java `TinyImage` constructor. It works in three steps:
1. It scans the grid row by row. Each pixel is masked to its low 24 bits, and the scan cuts the pixel stream into maximal same-colour `ImageSegment`s.
2. It builds a palette. The colour with the most segments takes slot 0, and ties go to the colour that reached that count first. Every other colour follows in the order it first appears. Each segment gets its colour's slot.
3. It drops every segment in slot 0, because slot 0 is the reader's background colour.

The **decoder** is `tinyImageGetPixel`. It scans the run table from the end and returns the palette entry of the first run that spans the pixel. If no run spans it, or the coordinates are outside the image, it returns palette entry 0.

The model has five modules:

- **`Segments`**: run detection on values. `Extend` is one round of the scan loop (lines 76-83), and `Runs` is the segment list the whole scan builds (lines 65-85). The module also has the partition and uniformity lemmas.
- **`Palette`**:
  - `Tally` is the leader the count loop ends with (lines 88-109);
  - `Fill` is the palette loop's appends, and `Pallet` is the whole palette (lines 110-123);
  - `IndexOf` is `ArrayList.indexOf`.
- **`Encoder`**:
  - `Assign` gives every segment its colour's slot (line 121);
  - `Trim` drops the slot-0 segments (lines 125-134);
  - `Encode` is the whole constructor on values (lines 57-137);
  - the mutable `ImageSegment` and `TinyImage` classes;
  - the constructor's loops as methods, each proved against the function for its step.
- **`Decoder`**:
  - the C structs as datatypes;
  - `GetPixel` as the backward loop;
  - `PixelOf`, the colour `tinyImageGetPixel` returns (`TinyImage.h` lines 48-80).
- **`RoundTrip`**: connects the two halves. `Emit` maps the encoder's fields onto the C structs, in the way the generated header declares them. The main result covers grids whose sides are below 65536 and that have at most 65536 pixels: reading every in-range pixel back gives the masked input colour.

`Scenarios` works small grids through by hand.

An empty (0-pixel) image gets the one-entry palette `[Integer.MAX_VALUE]` (`Encoder.EncodeEmpty`, `Scenarios.EmptyGrid`). Line 110 of `TinyImage.java` adds the tally's leader unconditionally, and with no segments the leader keeps its starting value from lines 89-90.

## Model

| member | source | states |
|---|---|---|
| Segments.Mask | TinyImage/src/main/java/TinyImage.java:73-74 | the stored colour is a 24-bit value congruent to the pixel modulo 2^24, i.e. `pixel & 0x00ffffff` |
| Segments.Masked | TinyImage/src/main/java/TinyImage.java:73-74 | the masked colour of every pixel, in scan order: same length, each entry `Mask` of its pixel |
| Segments.Extend | TinyImage/src/main/java/TinyImage.java:76-83 | one round of the scan loop on values; no ensures of its own, characterised by `RunsStep`, `ExtendPartition`, `GrowUniform` and `OpenUniform` |
| Segments.Runs | TinyImage/src/main/java/TinyImage.java:65-85 | the segment list the whole scan builds; no ensures of its own, characterised by `RunsPartition` and `RunsUniform` |
| Palette.Tally | TinyImage/src/main/java/TinyImage.java:88-109 | the leader the count loop ends with; no ensures of its own, characterised by `TallyLeader`, `TallyMax`, `TallyFirst` and `TallyStep` |
| Palette.Fill | TinyImage/src/main/java/TinyImage.java:113-123 | the palette after the palette loop's appends; no ensures of its own, characterised by `FillShape` and `FillStep` |
| Palette.Pallet | TinyImage/src/main/java/TinyImage.java:110-123 | the whole palette; no ensures of its own, characterised by `PalletShape` and `PalletSize` |
| Encoder.Assign | TinyImage/src/main/java/TinyImage.java:121 | every segment with `palletIndex` set to its colour's slot; no ensures of its own, characterised by `EncodeSlots`, `AssignExplains` and `SlotZeroDropped` |
| Encoder.Encode | TinyImage/src/main/java/TinyImage.java:57-137 | the constructor's result on values; no ensures of its own, characterised by `EncodeExplainsPixels`, `EncodeSlots`, `EncodeOrdered`, `EncodeEmpty`, `EncodeIgnoresHighBits`, and tied to the imperative code by `TinyImage.constructor` |
| Encoder.GetRGB | TinyImage/src/main/java/TinyImage.java:73 | `getRGB(col, row)` on a grid stored row by row; no ensures of its own, its index is in range by `RowMajor` |
| Segments.RunsPartition | TinyImage/src/main/java/TinyImage.java:65-85 | before trimming, the segments partition [0, W*H): the first starts at 0, each starts at the previous one's end, the last ends at W*H, every count is at least 1, and every slot is still 0 |
| Segments.RunsUniform | TinyImage/src/main/java/TinyImage.java:76-83 | every pixel a segment spans has the segment's colour, and neighbouring segments differ in colour (runs are maximal) |
| Segments.RunsStep | TinyImage/src/main/java/TinyImage.java:71-84 | one more pixel either lengthens the last segment or opens a segment of length 1 at that pixel's offset |
| Segments.PartitionOrdered | TinyImage/src/main/java/TinyImage.java:65-85 | in a partition an earlier segment ends where or before any later one starts |
| Segments.PartitionIsOrdered | TinyImage/src/main/java/TinyImage.java:65-85 | all segments of a partition are pairwise ordered, so their spans never overlap |
| Segments.PartitionCovers | TinyImage/src/main/java/TinyImage.java:65-85 | every offset in [0, W*H) lies in some segment |
| Segments.PartitionBounds | TinyImage/src/main/java/TinyImage.java:65-85 | each segment lies inside [0, W*H), and only a lone segment spans all of it |
| Segments.ExtendPartition | TinyImage/src/main/java/TinyImage.java:76-83 | one more pixel at offset n turns a partition of [0, n) into one of [0, n + 1), with every slot still 0 |
| Segments.GrowUniform | TinyImage/src/main/java/TinyImage.java:83 | a pixel of the current segment's colour lengthens that segment and keeps the runs uniform |
| Segments.OpenUniform | TinyImage/src/main/java/TinyImage.java:77-80 | a pixel of a new colour opens a segment and keeps the runs uniform |
| Palette.TallyLeader | TinyImage/src/main/java/TinyImage.java:88-110 | the leader is a segment colour with the largest segment count; it is the colour of the first segment whose running count reached that maximum; with no segments it is (-1, Integer.MAX_VALUE) |
| Palette.TallyMax | TinyImage/src/main/java/TinyImage.java:92-109 | the leader of a non-empty tally is a segment colour and no colour has more segments |
| Palette.TallyFirst | TinyImage/src/main/java/TinyImage.java:104-108 | strict `>`: the leader is the first segment at which the maximum count was reached; no earlier segment's running count reached it |
| Palette.TallyStep | TinyImage/src/main/java/TinyImage.java:92-109 | one loop round: the colour takes the lead only when its count so far is strictly greater than the leader's |
| Palette.RunningPrefix | TinyImage/src/main/java/TinyImage.java:95-101 | counting a later segment does not change the running count seen for an earlier one |
| Palette.RunningBound | TinyImage/src/main/java/TinyImage.java:95-101 | a running count never exceeds the colour's final count |
| Palette.IndexOf | TinyImage/src/main/java/TinyImage.java:121 | `indexOf`: the first position holding the colour, or -1 exactly when it is absent |
| Palette.IndexOfAppend | TinyImage/src/main/java/TinyImage.java:118 | appending keeps the first position of every colour already present, and a new colour is found at the end |
| Palette.IndexOfPrefix | TinyImage/src/main/java/TinyImage.java:116-121 | a colour's slot is unchanged by later appends |
| Palette.FillStep | TinyImage/src/main/java/TinyImage.java:114-119 | one loop round: the colour is appended only if it is not already in the palette |
| Palette.FillShape | TinyImage/src/main/java/TinyImage.java:113-123 | filling keeps the initial palette as a prefix, adds no duplicate, holds exactly the initial and segment colours, and orders the appended colours by first appearance |
| Palette.PalletShape | TinyImage/src/main/java/TinyImage.java:110-122 | the palette starts with the leader, has no duplicates, holds exactly the leader and the segment colours, and lists the colours after slot 0 in first-seen order |
| Palette.PalletSize | TinyImage/src/main/java/TinyImage.java:110-122 | for a non-empty image the palette is no longer than the segment list |
| Palette.NoDuplicatesCard | TinyImage/src/main/java/TinyImage.java:116-118 | a duplicate-free palette has as many entries as distinct colours |
| Palette.SetCard | TinyImage/src/main/java/TinyImage.java:92-101 | a segment list has at most as many distinct colours as segments |
| Encoder.Trim | TinyImage/src/main/java/TinyImage.java:125-134 | a segment is kept exactly when it was present with a slot other than 0; if any segment is in slot 0 the list shrinks |
| Encoder.TrimConcat | TinyImage/src/main/java/TinyImage.java:125-134 | trimming commutes with concatenation, so kept segments stay in their original order |
| Encoder.TrimSnoc | TinyImage/src/main/java/TinyImage.java:127-133 | one loop round: the segment is appended unchanged when its slot is not 0, skipped otherwise |
| Encoder.OrderedSnoc | TinyImage/src/main/java/TinyImage.java:131 | appending a segment that starts after every kept one ends keeps the list ordered |
| Encoder.TrimOrdered | TinyImage/src/main/java/TinyImage.java:125-134 | trimming an ordered list leaves an ordered list |
| Encoder.EncodeOrdered | TinyImage/src/main/java/TinyImage.java:65-134 | the kept segments of an encoding are pairwise ordered, so no two share a pixel |
| Encoder.EncodeEmpty | TinyImage/src/main/java/TinyImage.java:63-110 | a 0-pixel grid gives pixel count 0, no segments and the palette [Integer.MAX_VALUE] |
| Encoder.EncodeSlots | TinyImage/src/main/java/TinyImage.java:113-134 | every segment's slot is a palette position holding its colour, and every kept segment's slot is between 1 and the palette size |
| Encoder.SlotZeroDropped | TinyImage/src/main/java/TinyImage.java:121-133 | a segment of the slot-0 colour is dropped, so trimming shrinks the list |
| Encoder.AssignExplains | TinyImage/src/main/java/TinyImage.java:76-121 | a segment spanning a pixel gets the slot holding that pixel's colour |
| Encoder.PalletHoldsColors | TinyImage/src/main/java/TinyImage.java:110-122 | the palette is non-empty and holds every segment's colour |
| Encoder.TrimExplains | TinyImage/src/main/java/TinyImage.java:65-134 | after trimming, each pixel gets its colour either from the kept segment spanning it or, when none does, from palette slot 0 |
| Encoder.EncodeExplainsPixels | TinyImage/src/main/java/TinyImage.java:57-137 | every pixel of the grid is explained, with its masked colour, by the encoder's palette and kept segments |
| Encoder.EncodeIgnoresHighBits | TinyImage/src/main/java/TinyImage.java:73-77 | grids that agree in the low 24 bits of every pixel encode identically: alpha never splits a run or adds a colour |
| Encoder.MaskCongruent | TinyImage/src/main/java/TinyImage.java:74 | two pixels mask to the same colour if and only if they agree modulo 2^24 |
| Encoder.RowMajor | TinyImage/src/main/java/TinyImage.java:68-79 | the offset `row * mWidth + col` of an in-range pixel lies inside the grid, and a row ends where the next begins |
| Encoder.ImageSegment.constructor | TinyImage/src/main/java/TinyImage.java:202-212 | a new segment holds its start and colour, with pixel count 0 and slot 0 |
| Encoder.ImageSegment.Increment | TinyImage/src/main/java/TinyImage.java:215 | the pixel count grows by one and nothing else changes |
| Encoder.AddPixel | TinyImage/src/main/java/TinyImage.java:76-83 | one inner-loop round: the segment objects afterwards hold the run list extended by that pixel, and no object appears twice |
| Encoder.ScanRow | TinyImage/src/main/java/TinyImage.java:71-84 | after one row, the segment objects hold the runs of every pixel scanned so far |
| Encoder.ScanSegments | TinyImage/src/main/java/TinyImage.java:65-85 | after the scan, the segment objects are fresh, distinct and hold the runs of the masked grid |
| Encoder.CountSegments | TinyImage/src/main/java/TinyImage.java:88-109 | the count loop, with its HashMap, ends with the tally leader of the segment colours |
| Encoder.AssignPalletIndexes | TinyImage/src/main/java/TinyImage.java:110-123 | the palette loop ends with the filled palette, and every segment object holds its colour's slot |
| Encoder.AssignSlot | TinyImage/src/main/java/TinyImage.java:116-121 | one round of the palette loop, for one segment |
| Encoder.SlotStep | TinyImage/src/main/java/TinyImage.java:116-121 | giving segment k its slot keeps the slots of earlier segments correct |
| Encoder.KeepSlots | TinyImage/src/main/java/TinyImage.java:118-121 | appending to the palette keeps the slot of every colour already in it |
| Encoder.TrimSegments | TinyImage/src/main/java/TinyImage.java:125-134 | the trim loop returns distinct objects, all taken from the input list, whose values are, in order, the values `Trim` keeps (the objects' positions in the input are not stated; the encoder's values are pairwise distinct, since their starts increase) |
| Encoder.KeepSegment | TinyImage/src/main/java/TinyImage.java:127-133 | one round of the trim loop |
| Encoder.ModelsSnoc | TinyImage/src/main/java/TinyImage.java:131 | appending a segment object with its value keeps the list matching the values |
| Encoder.TinyImage.constructor | TinyImage/src/main/java/TinyImage.java:57-137 | the fields end as `Encode` of the grid: width, height, `mPixelCount == W*H`, the palette, and distinct, freshly allocated segment objects holding the kept segments |
| Decoder.LastSpanning | TinyImage/TinyImage.h:58-72 | the highest table position below `dataLength` whose run spans the pixel, or -1 exactly when none does |
| Decoder.FirstSpanning | TinyImage/TinyImage.h:57-72 | the lowest such position, or -1 exactly when none does |
| Decoder.PixelOf | TinyImage/TinyImage.h:48-80 | the colour `tinyImageGetPixel` returns, as a function; no ensures of its own, characterised by `GetPixel`, whose contract states it in the out-of-range, matched and unmatched cases, and by `ScanDirectionIrrelevant` |
| Decoder.GetPixel | TinyImage/TinyImage.h:48-80 | for a readable image (its offset fits a 32-bit `int`); outside the image the result is `pallet[0]`; inside, it is the palette entry of the highest-indexed run spanning `y*width + x`, or `pallet[0]` if none does; only `data[0..dataLength)` and the matched slot are read |
| Decoder.ScanDirectionIrrelevant | TinyImage/TinyImage.h:57-72 | for a table with disjoint runs the backward and forward scans agree, on the only run spanning the pixel |
| RoundTrip.Emit | TinyImage/src/main/java/TinyImage.java:167-186 | the header's tables: one entry per kept segment with the same start, count and slot, the same palette, the segment count as `dataLength`, and the width and height |
| RoundTrip.RunColors | TinyImage/src/main/java/TinyImage.java:74-79 | every segment colour is a 24-bit value |
| RoundTrip.PalletFits | TinyImage/TinyImage.h:39 | every palette entry fits `uint32_t` |
| RoundTrip.TrimBounds | TinyImage/TinyImage.h:27-32 | kept segments start inside the grid, are shorter than it, and name palette positions |
| RoundTrip.EncodedFits | TinyImage/TinyImage.h:27-42 | a grid of at most 65536 pixels with `uint16_t` sides encodes into tables whose every field fits its C type |
| RoundTrip.DecodeExplained | TinyImage/TinyImage.h:48-80 | reading an explained pixel from the emitted tables is permitted and gives its colour |
| RoundTrip.EmittedScanDirection | TinyImage/TinyImage.h:57-72 | the emitted table is disjoint, so `tinyImageGetPixel`'s backward scan finds the same run as a forward scan |
| RoundTrip.EmittedReadable | TinyImage/TinyImage.h:48-80 | every coordinate of the emitted image can be read, in range or not, for every grid within the size bound including the empty one |
| RoundTrip.RoundTrip | TinyImage/TinyImage.h:48-80 | for every in-range (x, y), reading the emitted tables gives the input pixel at (x, y) masked to 24 bits |
| Scenarios.OneColorGrid | TinyImage/src/main/java/TinyImage.java:57-137 | a one-colour grid gives one palette entry and no kept segment |
| Scenarios.RedGreenRedRuns | TinyImage/src/main/java/TinyImage.java:65-85 | red, green, red scans into three one-pixel segments |
| Scenarios.RedGreenRedTally | TinyImage/src/main/java/TinyImage.java:88-109 | red, with two segments, leads |
| Scenarios.RedGreenRedFill | TinyImage/src/main/java/TinyImage.java:113-123 | green is appended once after red |
| Scenarios.RedGreenRedPallet | TinyImage/src/main/java/TinyImage.java:110-123 | the palette is [red, green] |
| Scenarios.RedGreenRedKept | TinyImage/src/main/java/TinyImage.java:125-134 | only the green segment, in slot 1, is kept |
| Scenarios.TwoColorGrid | TinyImage/src/main/java/TinyImage.java:57-137 | red, green, red encodes to palette [red, green] and the single kept segment (1, 1, green, 1) |
| Scenarios.TwoColorGridReads | TinyImage/TinyImage.h:48-80 | reading those tables back gives red, green, red, and red past the right edge |
| Scenarios.RedGreenTally | TinyImage/src/main/java/TinyImage.java:104 | with one segment each, red, seen first, keeps the lead |
| Scenarios.RedGreenPallet | TinyImage/src/main/java/TinyImage.java:110-123 | the tied palette is [red, green] |
| Scenarios.TieGoesToFirstColor | TinyImage/src/main/java/TinyImage.java:104 | red then green: the first colour takes slot 0 and only green's segment is kept |
| Scenarios.AlphaIgnored | TinyImage/src/main/java/TinyImage.java:74 | opaque red as `getRGB` returns it, the negative int -0x10000, encodes exactly like red |
| Scenarios.EmptyGrid | TinyImage/src/main/java/TinyImage.java:89-110 | the 0-by-0 grid gives no segments and the palette [Integer.MAX_VALUE] |

## Left out

- `generateCHeader` and `ImageSegment.toString`: text output (templates, hex literals, the date, the stream). `RoundTrip.Emit` models only which values the generated header declares, not how they are printed.
- `main`: command-line parsing, file checks, `ImageIO.read` and exception printing are I/O.
- `mFileName` and `mVarName`: these come from the file name and take no part in the encoding. The model also leaves out the error path of line 60: for a file name without a '.', `substring` throws `StringIndexOutOfBoundsException` before any encoding, whereas the model's `TinyImage` constructor always succeeds.
- `BufferedImage.getRGB`: replaced by a pixel sequence stored row by row, which `Encoder.GetRGB` reads at `row * W + col`.
- `HashMap` and `ArrayList`: modelled as a Dafny `map` and sequences, using only the behaviour the code relies on (`containsKey`, `get`, `put`, `contains`, `add`, first-position `indexOf`).
- Java 32-bit int overflow: `row * mWidth + col` and `mWidth * mHeight` are unbounded integers in the model. The round trip requires at most 65536 pixels, so neither can overflow there.
- Decoder.GetPixel: C's `int` is taken to be 32 bits wide (`Decoder.int32`). Both `uint16_t` operands of `y * image->width` then promote to signed `int`, and overflow is undefined behaviour. So `Readable` requires `y * width + x < 2^31` for in-range pixels, and the model gives no meaning to reads beyond that.
- Decoder.GetPixel: 16-bit `int` targets, such as AVR Arduinos, are not modelled. There `uint16_t` promotes to `unsigned int`, and the following happens:
  - `y * width + x` wraps modulo 2^16, but the comparisons at lines 63 and 67 are unsigned, so offsets up to 65535 still compare correctly;
  - `imageData.pixelIndex + imageData.pixelCount` wraps to 0 for a run ending at 65536, so in a 65536-pixel image (such as 256x256) the pixels of a kept run that ends at the last pixel read back as `pallet[0]`;
  - a table of more than 32768 entries makes `image->dataLength-1` negative as an `int` on compilers that wrap the conversion, such as GCC, so no run is ever matched.

  The round trip's bound of at most 65536 pixels does not exclude these cases.
- Decoder.GetPixel: requires `Readable`. This means the palette is not empty and, for an in-range pixel, three more things: `dataLength` entries exist, the offset fits a 32-bit `int`, and the matched run names an existing palette slot. An out-of-range read touches only palette entry 0. When any of these conditions fails, the C code overflows or reads out of bounds, which is undefined behaviour, and the model does not give it a meaning. For a grid with `uint16_t` sides and at most 65536 pixels, including the empty grid, the emitted image satisfies `Readable` at every coordinate, inside the image or not (`RoundTrip.EmittedReadable`).
- `const` pointer arrays: the `data` and `pallet` pointers are modelled as sequences, with `dataLength` bounded by the sequence length.
- Arduino specifics: `PROGMEM`, `Arduino.h` and the `TINYIMAGE_DATA_LEN` macro.
- `uint16_t` and `uint32_t` widths: these type the decoder's struct fields (`Decoder.uint16`, `Decoder.uint32`). On the encoder side they appear only through `RoundTrip.Fits`, which `RoundTrip.Emit` requires, and through the round trip's size precondition (sides below 65536, at most 65536 pixels). `RoundTrip.EncodedFits` derives `Fits` from that precondition. Java's `int` fields are not narrowed on their own.
