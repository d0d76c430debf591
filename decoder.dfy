/**
 * The TinyImage reader (TinyImage.h): the image is a table of runs plus a
 * palette; a pixel's colour comes from the last run, counting from the end
 * of the table, that spans it, and from palette entry 0 otherwise.
 */
module Decoder {

  type uint16 = x: int | 0 <= x < 0x1_0000
  type uint32 = x: int | 0 <= x < 0x1_0000_0000
  /** The C `int` of the reader's locals, taken to be 32 bits wide. */
  type int32 = x: int | -0x8000_0000 <= x < 0x8000_0000

  /** One run of the table: its first pixel, its length, and its palette slot. */
  datatype TinyImageData = TinyImageData(pixelIndex: uint16, pixelCount: uint16, palletIndex: uint16)

  /** The image: `dataLength` runs of `data`, the palette, and the dimensions. */
  datatype TinyImage = TinyImage(data: seq<TinyImageData>, dataLength: uint16, pallet: seq<uint32>,
                                 width: uint16, height: uint16)

  predicate Spans(d: TinyImageData, pixelIndex: int)
  {
    d.pixelIndex <= pixelIndex < d.pixelIndex + d.pixelCount
  }

  /** The highest position below n whose run spans the pixel, or -1 if none does. */
  function LastSpanning(data: seq<TinyImageData>, n: nat, pixelIndex: int): (k: int)
    requires n <= |data|
    ensures -1 <= k < n
    ensures k >= 0 ==> Spans(data[k], pixelIndex) && forall j :: k < j < n ==> !Spans(data[j], pixelIndex)
    ensures k == -1 <==> forall j :: 0 <= j < n ==> !Spans(data[j], pixelIndex)
  {
    if n == 0 then -1
    else if Spans(data[n - 1], pixelIndex) then n - 1
    else LastSpanning(data, n - 1, pixelIndex)
  }

  /** The lowest position below n whose run spans the pixel, or -1 if none does. */
  function FirstSpanning(data: seq<TinyImageData>, n: nat, pixelIndex: int): (k: int)
    requires n <= |data|
    ensures -1 <= k < n
    ensures k >= 0 ==> Spans(data[k], pixelIndex) && forall j :: 0 <= j < k ==> !Spans(data[j], pixelIndex)
    ensures k == -1 <==> forall j :: 0 <= j < n ==> !Spans(data[j], pixelIndex)
    decreases n
  {
    if n == 0 then -1
    else
      var k := FirstSpanning(data, n - 1, pixelIndex);
      if k >= 0 then k
      else if Spans(data[n - 1], pixelIndex) then n - 1
      else -1
  }

  predicate InImage(image: TinyImage, x: uint16, y: uint16)
  {
    x < image.width && y < image.height
  }

  function PixelIndex(image: TinyImage, x: uint16, y: uint16): int
  {
    y * image.width + x
  }

  /**
   * What reading pixel (x, y) requires of the image: the palette is not
   * empty and, for an in-range pixel, the table holds dataLength runs, the
   * offset `y * width + x` fits the `int` it is computed in (both operands
   * promote to signed `int`, whose overflow is undefined), and the run the
   * read matches names an existing palette entry. Outside the image only
   * palette entry 0 is read.
   */
  predicate Readable(image: TinyImage, x: uint16, y: uint16)
  {
    && (InImage(image, x, y) ==> image.dataLength <= |image.data|)
    && |image.pallet| > 0
    && (InImage(image, x, y) ==> PixelIndex(image, x, y) < 0x8000_0000)
    && (InImage(image, x, y) ==>
          var k := LastSpanning(image.data, image.dataLength, PixelIndex(image, x, y));
          k >= 0 ==> image.data[k].palletIndex < |image.pallet|)
  }

  /** The colour of pixel (x, y). */
  function PixelOf(image: TinyImage, x: uint16, y: uint16): uint32
    requires Readable(image, x, y)
  {
    if InImage(image, x, y) then
      var k := LastSpanning(image.data, image.dataLength, PixelIndex(image, x, y));
      if k >= 0 then image.pallet[image.data[k].palletIndex] else image.pallet[0]
    else image.pallet[0]
  }

  /**
   * tinyImageGetPixel: outside the image, palette entry 0; inside, the
   * palette entry of the last run (by table position) spanning the pixel,
   * or entry 0 when no run spans it.
   */
  method GetPixel(image: TinyImage, x: uint16, y: uint16) returns (color: uint32)
    requires Readable(image, x, y)
    ensures !InImage(image, x, y) ==> color == image.pallet[0]
    ensures InImage(image, x, y) ==>
      var p := PixelIndex(image, x, y);
      if exists k :: 0 <= k < image.dataLength && Spans(image.data[k], p) then
        exists k :: 0 <= k < image.dataLength && Spans(image.data[k], p)
          && (forall j :: k < j < image.dataLength ==> !Spans(image.data[j], p))
          && color == image.pallet[image.data[k].palletIndex]
      else color == image.pallet[0]
    ensures color == PixelOf(image, x, y)
  {
    if x >= 0 && x < image.width && y >= 0 && y < image.height {
      var pixelIndex: int32 := y * image.width + x;
      var index: int32 := image.dataLength as int - 1;
      while index >= 0
        invariant -1 <= index < image.dataLength
        invariant forall j :: index < j < image.dataLength ==> !Spans(image.data[j], pixelIndex)
        decreases index
      {
        var imageData := image.data[index];
        if pixelIndex >= imageData.pixelIndex {
          if pixelIndex < imageData.pixelIndex + imageData.pixelCount {
            assert LastSpanning(image.data, image.dataLength, pixelIndex) == index;
            return image.pallet[imageData.palletIndex];
          }
        }
        index := index - 1;
      }
    }
    return image.pallet[0];
  }

  /** No two of the first n runs share a pixel. */
  ghost predicate Disjoint(data: seq<TinyImageData>, n: nat)
    requires n <= |data|
  {
    forall i, j :: 0 <= i < j < n ==>
      data[i].pixelIndex + data[i].pixelCount <= data[j].pixelIndex ||
      data[j].pixelIndex + data[j].pixelCount <= data[i].pixelIndex
  }

  /**
   * When runs do not overlap, scanning the table from the end or from the
   * start finds the same run: the only one spanning the pixel.
   */
  lemma ScanDirectionIrrelevant(data: seq<TinyImageData>, n: nat, pixelIndex: int)
    requires n <= |data| && Disjoint(data, n)
    ensures LastSpanning(data, n, pixelIndex) == FirstSpanning(data, n, pixelIndex)
    ensures forall k :: 0 <= k < n && Spans(data[k], pixelIndex) ==> LastSpanning(data, n, pixelIndex) == k
  {
  }
}
