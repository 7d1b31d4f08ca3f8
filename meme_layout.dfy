/**
 * The closed-form geometry of the layout compositor: display modes, canvas
 * size, the cell of each image, the aspect-preserving fit of an image in its
 * cell, caption font sizes and background rectangles, and the parsing of a
 * `#rrggbb` background colour.
 */
module MemeLayout {
  import opened Basics
  import opened JsText
  import opened Canvas

  datatype DisplayMode = Single | Horizontal | Vertical | Grid2x2

  /** Decoded image dimensions: a decoded image has a positive width and height. */
  type Pos = n: nat | n > 0 witness 1
  datatype Dims = Dims(width: Pos, height: Pos)

  /** `displayModes[mode].maxImages`. */
  function MaxImages(m: DisplayMode): nat {
    match m
    case Single => 1
    case Horizontal => 2
    case Vertical => 2
    case Grid2x2 => 4
  }

  function CanvasWidth(m: DisplayMode): nat {
    match m
    case Single => 800
    case Horizontal => 1200
    case Vertical => 600
    case Grid2x2 => 1000
  }

  function CanvasHeight(m: DisplayMode): nat {
    match m
    case Single => 600
    case Horizontal => 600
    case Vertical => 1200
    case Grid2x2 => 1000
  }

  function CanvasRect(m: DisplayMode): Rect {
    Rect(0.0, 0.0, CanvasWidth(m) as real, CanvasHeight(m) as real)
  }

  /**
   * The cell of image `index` when `count` images are selected. The
   * horizontal and vertical splits happen only for exactly two images; any
   * other count in those modes, and the single mode, use the whole canvas.
   */
  function CellRect(m: DisplayMode, count: nat, index: nat): (r: Rect)
    ensures r.w > 0.0 && r.h > 0.0
  {
    var W := CanvasWidth(m) as real;
    var H := CanvasHeight(m) as real;
    if m == Horizontal && count == 2 then
      Rect(index as real * (W / 2.0), 0.0, W / 2.0, H)
    else if m == Vertical && count == 2 then
      Rect(0.0, index as real * (H / 2.0), W, H / 2.0)
    else if m == Grid2x2 then
      Rect((index % 2) as real * (W / 2.0), (index / 2) as real * (H / 2.0), W / 2.0, H / 2.0)
    else
      Rect(0.0, 0.0, W, H)
  }

  /** While the mode's maximum is respected, every image's cell lies inside the canvas. */
  lemma CellInsideCanvas(m: DisplayMode, count: nat, index: nat)
    requires index < count <= MaxImages(m)
    ensures CellRect(m, count, index).Within(CanvasRect(m))
  {
    if m == Grid2x2 {
      assert index % 2 <= 1 && index / 2 <= 1;
    }
  }

  /** Distinct images get cells that do not overlap. */
  lemma CellsDisjoint(m: DisplayMode, count: nat, i: nat, j: nat)
    requires i < count <= MaxImages(m) && j < count && i != j
    ensures Disjoint(CellRect(m, count, i), CellRect(m, count, j))
  {
    if m == Grid2x2 {
      assert i % 2 != j % 2 || i / 2 != j / 2;
    }
  }

  /** The cells of the modes at their maximum, written out. */
  lemma CellsAtMaximum()
    ensures CellRect(Grid2x2, 4, 0) == Rect(0.0, 0.0, 500.0, 500.0)
    ensures CellRect(Grid2x2, 4, 1) == Rect(500.0, 0.0, 500.0, 500.0)
    ensures CellRect(Grid2x2, 4, 2) == Rect(0.0, 500.0, 500.0, 500.0)
    ensures CellRect(Grid2x2, 4, 3) == Rect(500.0, 500.0, 500.0, 500.0)
    ensures CellRect(Horizontal, 2, 0) == Rect(0.0, 0.0, 600.0, 600.0)
    ensures CellRect(Horizontal, 2, 1) == Rect(600.0, 0.0, 600.0, 600.0)
    ensures CellRect(Vertical, 2, 1) == Rect(0.0, 600.0, 600.0, 600.0)
  {
  }

  /** Below two images the horizontal and vertical modes do not split: one image fills the canvas. */
  lemma NoSplitBelowTwo(m: DisplayMode, index: nat)
    requires m == Horizontal || m == Vertical
    ensures CellRect(m, 1, index) == CanvasRect(m)
  {
  }

  /**
   * The "contain" fit of an image in a cell: the drawn rectangle lies in the
   * cell, spans one full side of it, is centred along the other axis and keeps
   * the image's width to height ratio.
   */
  function ContainFit(img: Dims, cell: Rect): (r: Rect)
    requires cell.w > 0.0 && cell.h > 0.0
    ensures r.Within(cell)
    ensures r.w == cell.w || r.h == cell.h
    ensures r.x - cell.x == (cell.x + cell.w) - (r.x + r.w)
    ensures r.y - cell.y == (cell.y + cell.h) - (r.y + r.h)
    ensures r.w * (img.height as real) == r.h * (img.width as real)
    ensures r.w > 0.0 && r.h > 0.0
  {
    var aspectRatio := img.width as real / img.height as real;
    var targetAspect := cell.w / cell.h;
    if aspectRatio > targetAspect then
      var drawHeight := cell.w / aspectRatio;
      WiderFits(img.width as real, img.height as real, cell.w, cell.h);
      Rect(cell.x, cell.y + (cell.h - drawHeight) / 2.0, cell.w, drawHeight)
    else
      var drawWidth := cell.h * aspectRatio;
      TallerFits(img.width as real, img.height as real, cell.w, cell.h);
      Rect(cell.x + (cell.w - drawWidth) / 2.0, cell.y, drawWidth, cell.h)
  }

  lemma WiderFits(iw: real, ih: real, w: real, h: real)
    requires iw > 0.0 && ih > 0.0 && w > 0.0 && h > 0.0
    requires iw / ih > w / h
    ensures 0.0 < w / (iw / ih) < h
    ensures w * ih == (w / (iw / ih)) * iw
  {
    var a := iw / ih;
    assert a * ih == iw;
    assert (w / a) * a == w;
    assert w < a * h by {
      assert (w / h) * h == w;
    }
  }

  lemma TallerFits(iw: real, ih: real, w: real, h: real)
    requires iw > 0.0 && ih > 0.0 && w > 0.0 && h > 0.0
    requires iw / ih <= w / h
    ensures 0.0 < h * (iw / ih) <= w
    ensures (h * (iw / ih)) * ih == h * iw
  {
    var a := iw / ih;
    assert a * ih == iw;
    assert (w / h) * h == w;
  }

  /** The fit never leaves an image at its own size when that is smaller than the cell: it is scaled up. */
  lemma ContainFitUpscales(img: Dims, cell: Rect)
    requires cell.w > 0.0 && cell.h > 0.0
    requires img.width as real <= cell.w && img.height as real <= cell.h
    ensures ContainFit(img, cell).w >= img.width as real
    ensures ContainFit(img, cell).h >= img.height as real
  {
    var r := ContainFit(img, cell);
    var iw, ih := img.width as real, img.height as real;
    if r.w == cell.w {
      ScaleUp(cell.w, iw, ih, r.h);
    } else {
      ScaleUp(cell.h, ih, iw, r.w);
    }
  }

  /** From `d * q == s * p` with `s >= q`: `d >= p`. */
  lemma ScaleUp(s: real, q: real, p: real, d: real)
    requires q > 0.0 && p > 0.0 && s >= q
    requires d * q == s * p
    ensures d >= p
  {
    assert s * p >= q * p by {
      assert (s - q) * p >= 0.0;
    }
    assert (d - p) * q >= 0.0;
  }

  /** `Math.floor(canvasWidth / 15)`: the top and bottom caption font size. */
  function GlobalFontSize(canvasWidth: nat): nat {
    canvasWidth / 15
  }

  /** `Math.floor(canvasWidth / 20)`: the custom caption font size. */
  function CustomFontSize(canvasWidth: nat): nat {
    canvasWidth / 20
  }

  lemma FontSizesPerMode()
    ensures GlobalFontSize(CanvasWidth(Single)) == 53 && CustomFontSize(CanvasWidth(Single)) == 40
    ensures GlobalFontSize(CanvasWidth(Horizontal)) == 80 && CustomFontSize(CanvasWidth(Horizontal)) == 60
    ensures GlobalFontSize(CanvasWidth(Vertical)) == 40 && CustomFontSize(CanvasWidth(Vertical)) == 30
    ensures GlobalFontSize(CanvasWidth(Grid2x2)) == 66 && CustomFontSize(CanvasWidth(Grid2x2)) == 50
  {
  }

  /** The caption font: `bold <size>px Impact`. */
  function CaptionFont(size: nat): Font {
    Font("bold", size, "Impact")
  }

  /** The box a one-line text of width `tw` and font size `fs` covers, centred on `cx` with its top at `top`. */
  function TextBox(cx: real, top: real, tw: real, fs: real): Rect {
    Rect(cx - tw / 2.0, top, tw, fs)
  }

  /** The top caption's anchor: centred, 20 pixels below the top edge, baseline "top". */
  const TopTextY: real := 20.0

  /** The bottom caption's anchor is 60 pixels above the bottom edge, baseline "bottom". */
  function BottomTextY(canvasHeight: nat): real {
    canvasHeight as real - 60.0
  }

  /**
   * The background of the top caption for a measured text width `tw`: the
   * text box padded by 10 pixels left and right and 5 above and below.
   */
  function TopBackground(canvasWidth: nat, tw: real): (r: Rect)
    ensures Pads(r, TextBox(canvasWidth as real / 2.0, TopTextY, tw, GlobalFontSize(canvasWidth) as real), 10.0, 5.0)
  {
    var padding := 10.0;
    var textHeight := GlobalFontSize(canvasWidth) as real;
    Rect(canvasWidth as real / 2.0 - tw / 2.0 - padding, TopTextY - padding / 2.0,
         tw + padding * 2.0, textHeight + padding)
  }

  /**
   * The background of the bottom caption: the text sits above its bottom
   * baseline, and the background pads that box as for the top caption.
   */
  function BottomBackground(canvasWidth: nat, canvasHeight: nat, tw: real): (r: Rect)
    ensures var fs := GlobalFontSize(canvasWidth) as real;
      Pads(r, TextBox(canvasWidth as real / 2.0, BottomTextY(canvasHeight) - fs, tw, fs), 10.0, 5.0)
  {
    var padding := 10.0;
    var textHeight := GlobalFontSize(canvasWidth) as real;
    Rect(canvasWidth as real / 2.0 - tw / 2.0 - padding, BottomTextY(canvasHeight) - textHeight - padding / 2.0,
         tw + padding * 2.0, textHeight + padding)
  }

  /** The background of a custom caption centred (both ways) on its anchor `(x, y)`. */
  function CustomBackground(x: real, y: real, tw: real, fs: nat): (r: Rect)
    ensures Pads(r, TextBox(x, y - fs as real / 2.0, tw, fs as real), 10.0, 5.0)
  {
    var padding := 10.0;
    Rect(x - tw / 2.0 - padding, y - fs as real / 2.0 - padding / 2.0, tw + padding * 2.0, fs as real + padding)
  }

  /** The size of a padded background: the measured width plus 20 and the font size plus 10. */
  lemma BackgroundSize(canvasWidth: nat, canvasHeight: nat, tw: real)
    ensures TopBackground(canvasWidth, tw).w == tw + 20.0
    ensures TopBackground(canvasWidth, tw).h == GlobalFontSize(canvasWidth) as real + 10.0
    ensures BottomBackground(canvasWidth, canvasHeight, tw).w == tw + 20.0
    ensures BottomBackground(canvasWidth, canvasHeight, tw).h == GlobalFontSize(canvasWidth) as real + 10.0
    ensures TopBackground(canvasWidth, tw).y == 15.0
    ensures BottomBackground(canvasWidth, canvasHeight, tw).y
            == canvasHeight as real - 60.0 - GlobalFontSize(canvasWidth) as real - 5.0
    ensures tw >= 0.0 ==> TopBackground(canvasWidth, tw).w >= 20.0 && BottomBackground(canvasWidth, canvasHeight, tw).w >= 20.0
  {
  }

  /** The channels of an `rgba(...)` colour; `None` where `parseInt` read NaN. */
  datatype Rgba = Rgba(r: Option<int>, g: Option<int>, b: Option<int>, alpha: real)

  /** `hexToRgba(hex, opacity)`: the channels are `parseInt` of characters 1-2, 3-4 and 5-6 in base 16. */
  function HexToRgba(hex: string, opacity: real): (p: Rgba)
    ensures p.alpha == opacity
  {
    Rgba(ParseInt(Slice(hex, 1, 3), 16), ParseInt(Slice(hex, 3, 5), 16), ParseInt(Slice(hex, 5, 7), 16), opacity)
  }

  /** The `#rrggbb` string a colour picker produces for the channels `r`, `g` and `b`. */
  function ColorHex(r: nat, g: nat, b: nat): (s: string)
    requires r < 256 && g < 256 && b < 256
    ensures |s| == 7
  {
    "#" + HexByte(r) + HexByte(g) + HexByte(b)
  }

  /** `hexToRgba` recovers the channels of every `#rrggbb` colour. */
  lemma HexToRgbaReadsChannels(r: nat, g: nat, b: nat, opacity: real)
    requires r < 256 && g < 256 && b < 256
    ensures HexToRgba(ColorHex(r, g, b), opacity) == Rgba(Some(r), Some(g), Some(b), opacity)
  {
    var s := ColorHex(r, g, b);
    assert Slice(s, 1, 3) == HexByte(r);
    assert Slice(s, 3, 5) == HexByte(g);
    assert Slice(s, 5, 7) == HexByte(b);
    ParseHexByte(r);
    ParseHexByte(g);
    ParseHexByte(b);
  }
}
