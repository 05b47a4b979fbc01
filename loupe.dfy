/** The integer window arithmetic of the loupe preview: clamp (app.js:74),
    the sampled square in updateLoupePreview (app.js:264-277) and the centre
    pixel read out of it (app.js:292-297). */
module Loupe {
  import opened Wrappers
  import opened HexColour

  /** Side of the magnified square, in canvas pixels (app.js:35). */
  const LOUPE_PIXELS: nat := 5

  /** clamp: Math.min(Math.max(value, min), max). */
  function Clamp(value: int, lo: int, hi: int): (r: int)
    ensures r <= hi
    ensures lo <= hi ==> lo <= r
    ensures lo <= value <= hi ==> r == value
    ensures value < lo <= hi ==> r == lo
    ensures hi < value ==> r == hi
    ensures hi < lo ==> r == hi
  {
    var atLeast := if value > lo then value else lo;
    if atLeast < hi then atLeast else hi
  }

  function Min(a: int, b: int): int { if a < b then a else b }
  function Max(a: int, b: int): int { if a > b then a else b }

  /** The square read from the canvas: its side and its top-left corner. */
  datatype Window = Window(size: nat, startX: int, startY: int)

  /** The sampled square for pointer (x, y) on a width-by-height canvas;
      None when viewSize is 0 and the loupe is hidden instead. The square
      lies on the canvas: its corner is in [0, max(width - size, 0)] (height
      likewise) and it does not run past the right or bottom edge. For a pointer
      on the canvas (which getCanvasCoordinates guarantees, app.js:85-93)
      the square contains the pointed pixel, and where the square is not
      pushed against an edge the pointer is its centre pixel. */
  function LoupeWindow(width: nat, height: nat, x: int, y: int): (w: Option<Window>)
    ensures w.None? <==> width == 0 || height == 0
    ensures w.Some? ==> w.value.size == Min(Min(LOUPE_PIXELS, width), height)
    ensures w.Some? ==>
      && 1 <= w.value.size <= LOUPE_PIXELS
      && 0 <= w.value.startX <= Max(width - w.value.size, 0)
      && w.value.startX + w.value.size <= width
      && 0 <= w.value.startY <= Max(height - w.value.size, 0)
      && w.value.startY + w.value.size <= height
    ensures 0 <= x < width && 0 <= y < height ==>
      && w.value.startX <= x < w.value.startX + w.value.size
      && w.value.startY <= y < w.value.startY + w.value.size
    ensures 0 <= x < width && 0 <= y < height ==>
      && (w.value.size / 2 <= x <= width - w.value.size + w.value.size / 2 ==> w.value.startX + w.value.size / 2 == x)
      && (w.value.size / 2 <= y <= height - w.value.size + w.value.size / 2 ==> w.value.startY + w.value.size / 2 == y)
  {
    var viewSize := Min(Min(LOUPE_PIXELS, width), height);
    if viewSize == 0 then None
    else
      var half := viewSize / 2;
      var maxX := Max(width - viewSize, 0);
      var maxY := Max(height - viewSize, 0);
      Some(Window(viewSize, Clamp(x - half, 0, maxX), Clamp(y - half, 0, maxY)))
  }

  /** Byte offset of the centre pixel in the RGBA data of a size-by-size
      square: pixel (c, c) with c = floor(size / 2), four bytes per pixel,
      all four of which lie inside the data. */
  function CentreIndex(size: nat): (index: nat)
    requires size >= 1
    ensures index % 4 == 0
    ensures index + 3 < size * size * 4
    ensures index == ((size / 2) * size + size / 2) * 4
  {
    var c := size / 2;
    assert c * size + c < size * size by {
      assert c * size <= (size - 1) * size;
    }
    (c * size + c) * 4
  }

  /** `sample.data[i] ?? 0`. */
  function SampleAt(data: seq<Byte>, i: nat): Byte {
    if i < |data| then data[i] else 0
  }

  /** The colour shown in the loupe: rgbToHex of the centre pixel's red,
      green and blue bytes. */
  function LoupeColour(data: seq<Byte>, size: nat): string
    requires size >= 1
  {
    var index := CentreIndex(size);
    RgbToHex(SampleAt(data, index), SampleAt(data, index + 1), SampleAt(data, index + 2))
  }

  /** On the data getImageData returns (size * size * 4 bytes) the `?? 0`
      fallback never applies: the loupe shows the canonical hex of the centre
      pixel, and hexToRgb reads that pixel's bytes back from it. */
  lemma LoupeColourIsCentrePixel(data: seq<Byte>, size: nat)
    requires size >= 1 && |data| == size * size * 4
    ensures var hex, index := LoupeColour(data, size), CentreIndex(size);
      && IsCanonical(hex)
      && HexToRgb(hex) == Some(Rgb(data[index], data[index + 1], data[index + 2]))
  {
    var index := CentreIndex(size);
    RgbToHexFormat(data[index], data[index + 1], data[index + 2]);
    RgbRoundTrip(data[index], data[index + 1], data[index + 2]);
  }
}
