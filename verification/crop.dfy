/**
 * The per-file step of the crop stage: a box of `cw` x `ch` pixels centred on
 * the frame and shifted by the offsets, clamped to the frame, and pasted into
 * a fully transparent RGBA canvas of exactly `cw` x `ch` pixels.
 */
module Crop {

  newtype Byte = x: int | 0 <= x < 256

  datatype Pixel = Rgba(r: Byte, g: Byte, b: Byte, a: Byte)

  const Transparent := Rgba(0, 0, 0, 0)

  /** A raster image, row by row: `rows[y][x]` is the pixel at column x of row y. */
  datatype Image = Image(width: nat, height: nat, rows: seq<seq<Pixel>>)
  {
    predicate WellFormed()
    {
      |rows| == height && forall y :: 0 <= y < height ==> |rows[y]| == width
    }

    predicate Contains(x: int, y: int)
    {
      0 <= x < width && 0 <= y < height
    }
  }

  type Frame = img: Image | img.WellFormed() witness Image(0, 0, [])

  /** The source pixel at (x, y), or a transparent one outside the frame. */
  function SourceAt(img: Frame, x: int, y: int): Pixel
  {
    if img.Contains(x, y) then img.rows[y][x] else Transparent
  }

  datatype Box = Box(left: int, top: int, right: int, bottom: int)

  /**
   * The crop rectangle: `(W - cw) // 2 + offset_x` and so on. Python's `//` by
   * 2 and Dafny's `/` by 2 both round toward minus infinity.
   */
  function CropBox(w: nat, h: nat, cw: int, ch: int, ox: int, oy: int): (b: Box)
    ensures 2 * (b.left - ox) <= w - cw < 2 * (b.left - ox) + 2
    ensures 2 * (b.top - oy) <= h - ch < 2 * (b.top - oy) + 2
    ensures b.right - b.left == cw && b.bottom - b.top == ch
  {
    var left := (w - cw) / 2 + ox;
    var top := (h - ch) / 2 + oy;
    Box(left, top, left + cw, top + ch)
  }

  function Max(a: int, b: int): int { if a < b then b else a }
  function Min(a: int, b: int): int { if a < b then a else b }

  /** Where the clamped part of the box goes in the canvas, and which part of the frame it is. */
  datatype Placement = Placement(pasteLeft: int, pasteTop: int, src: Box)
  {
    predicate NonEmpty() { src.right > src.left && src.bottom > src.top }
  }

  function Clamp(w: nat, h: nat, b: Box): (p: Placement)
    ensures p.NonEmpty() ==> 0 <= p.src.left < p.src.right <= w && 0 <= p.src.top < p.src.bottom <= h
  {
    Placement(Max(0, -b.left), Max(0, -b.top),
      Box(Max(0, b.left), Max(0, b.top), Min(w, b.right), Min(h, b.bottom)))
  }

  /**
   * The clamped region lies in the frame, fits the canvas at its paste
   * position, and is shifted by exactly the box's corner.
   */
  lemma ClampFits(w: nat, h: nat, cw: int, ch: int, ox: int, oy: int)
    requires cw > 0 && ch > 0
    ensures var b := CropBox(w, h, cw, ch, ox, oy);
      var p := Clamp(w, h, b);
      p.pasteLeft >= 0 && p.pasteTop >= 0 &&
      p.src.left - p.pasteLeft == b.left && p.src.top - p.pasteTop == b.top &&
      (p.NonEmpty() ==>
        0 <= p.src.left < p.src.right <= w && 0 <= p.src.top < p.src.bottom <= h &&
        p.pasteLeft + (p.src.right - p.src.left) <= cw &&
        p.pasteTop + (p.src.bottom - p.src.top) <= ch)
  {
  }

  /** `Image.new('RGBA', (cw, ch), (0, 0, 0, 0))`. */
  function Blank(cw: nat, ch: nat): (img: Frame)
  {
    Image(cw, ch, seq(ch, _ => seq(cw, _ => Transparent)))
  }

  /** `img.crop(box)` for a box inside the frame. */
  function Region(img: Frame, b: Box): (part: Frame)
    requires 0 <= b.left <= b.right <= img.width && 0 <= b.top <= b.bottom <= img.height
    ensures part.width == b.right - b.left && part.height == b.bottom - b.top
    ensures forall y, x :: part.Contains(x, y) ==> part.rows[y][x] == img.rows[b.top + y][b.left + x]
  {
    var rows := seq(b.bottom - b.top, y requires 0 <= y < b.bottom - b.top =>
      seq(b.right - b.left, x requires 0 <= x < b.right - b.left =>
        img.rows[b.top + y][b.left + x]));
    assert Image(b.right - b.left, b.bottom - b.top, rows).WellFormed();
    Image(b.right - b.left, b.bottom - b.top, rows)
  }

  /** `canvas.paste(part, (px, py))`: the part covers the canvas where they overlap. */
  function Paste(canvas: Frame, part: Frame, px: int, py: int): (img: Frame)
    ensures img.width == canvas.width && img.height == canvas.height
    ensures forall y, x :: img.Contains(x, y) ==>
      img.rows[y][x] == if part.Contains(x - px, y - py) then part.rows[y - py][x - px] else canvas.rows[y][x]
  {
    var rows := seq(canvas.height, y requires 0 <= y < canvas.height =>
      seq(canvas.width, x requires 0 <= x < canvas.width =>
        if part.Contains(x - px, y - py) then part.rows[y - py][x - px] else canvas.rows[y][x]));
    assert Image(canvas.width, canvas.height, rows).WellFormed();
    Image(canvas.width, canvas.height, rows)
  }

  /**
   * The crop of one frame. The result is exactly `cw` x `ch`, and each of its
   * pixels is the frame's pixel under the box, or transparent where the box
   * leaves the frame.
   */
  function CropFrame(img: Frame, cw: int, ch: int, ox: int, oy: int): (r: Frame)
    requires cw > 0 && ch > 0
    ensures r.width == cw && r.height == ch
    ensures var b := CropBox(img.width, img.height, cw, ch, ox, oy);
      forall y, x :: 0 <= y < ch && 0 <= x < cw ==>
        r.rows[y][x] == SourceAt(img, b.left + x, b.top + y)
  {
    var b := CropBox(img.width, img.height, cw, ch, ox, oy);
    var canvas := Blank(cw, ch);
    var p := Clamp(img.width, img.height, b);
    ClampFits(img.width, img.height, cw, ch, ox, oy);
    if p.NonEmpty() then
      PastedBox(img, cw, ch, ox, oy);
      Paste(canvas, Region(img, p.src), p.pasteLeft, p.pasteTop)
    else
      canvas
  }

  /** Pasting the clamped region into the blank canvas puts every pixel under the box in its place. */
  lemma PastedBox(img: Frame, cw: int, ch: int, ox: int, oy: int)
    requires cw > 0 && ch > 0
    requires Clamp(img.width, img.height, CropBox(img.width, img.height, cw, ch, ox, oy)).NonEmpty()
    ensures var b := CropBox(img.width, img.height, cw, ch, ox, oy);
      var p := Clamp(img.width, img.height, b);
      var r := Paste(Blank(cw, ch), Region(img, p.src), p.pasteLeft, p.pasteTop);
      forall y, x :: 0 <= y < ch && 0 <= x < cw ==> r.rows[y][x] == SourceAt(img, b.left + x, b.top + y)
  {
    ClampFits(img.width, img.height, cw, ch, ox, oy);
  }

  predicate AllTransparent(img: Frame)
  {
    forall y, x :: 0 <= y < img.height && 0 <= x < img.width ==> img.rows[y][x] == Transparent
  }

  /** A box that misses the frame entirely gives a fully transparent result. */
  lemma CropOutsideIsTransparent(img: Frame, cw: int, ch: int, ox: int, oy: int)
    requires cw > 0 && ch > 0
    requires var b := CropBox(img.width, img.height, cw, ch, ox, oy);
      b.right <= 0 || b.left >= img.width || b.bottom <= 0 || b.top >= img.height
    ensures AllTransparent(CropFrame(img, cw, ch, ox, oy))
  {
    var r := CropFrame(img, cw, ch, ox, oy);
    var b := CropBox(img.width, img.height, cw, ch, ox, oy);
    forall y, x | 0 <= y < ch && 0 <= x < cw
      ensures r.rows[y][x] == Transparent
    {
      assert !img.Contains(b.left + x, b.top + y);
    }
  }

  /** A box inside the frame is copied without padding. */
  lemma CropInsideIsRegion(img: Frame, cw: int, ch: int, ox: int, oy: int)
    requires cw > 0 && ch > 0
    requires var b := CropBox(img.width, img.height, cw, ch, ox, oy);
      0 <= b.left && b.right <= img.width && 0 <= b.top && b.bottom <= img.height
    ensures var b := CropBox(img.width, img.height, cw, ch, ox, oy);
      CropFrame(img, cw, ch, ox, oy) == Region(img, b)
  {
    var r := CropFrame(img, cw, ch, ox, oy);
    var b := CropBox(img.width, img.height, cw, ch, ox, oy);
    var q := Region(img, b);
    forall y | 0 <= y < ch
      ensures r.rows[y] == q.rows[y]
    {
      forall x | 0 <= x < cw
        ensures r.rows[y][x] == q.rows[y][x]
      {
        assert img.Contains(b.left + x, b.top + y);
      }
    }
  }

  /** A 1920x1080 frame cropped to 256x256 with no offset: the box (832,412)-(1088,668), all inside. */
  lemma FullHdCentreExample(img: Frame)
    requires img.width == 1920 && img.height == 1080
    ensures CropBox(1920, 1080, 256, 256, 0, 0) == Box(832, 412, 1088, 668)
    ensures CropFrame(img, 256, 256, 0, 0) == Region(img, Box(832, 412, 1088, 668))
  {
    CropInsideIsRegion(img, 256, 256, 0, 0);
  }

  /** Offset -2000 on a 1920-wide frame puts the whole box left of the frame. */
  lemma FarLeftOffsetExample(img: Frame)
    requires img.width == 1920
    ensures CropBox(1920, img.height, 256, 256, -2000, 0).right < 0
    ensures AllTransparent(CropFrame(img, 256, 256, -2000, 0))
  {
    CropOutsideIsTransparent(img, 256, 256, -2000, 0);
  }
}
