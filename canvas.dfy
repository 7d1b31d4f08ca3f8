/**
 * The 2D canvas as the two editors use it: painting is recorded as a list of
 * draw commands, issued in order, instead of being rasterised.
 */
module Canvas {
  import opened Basics

  /** An axis-aligned rectangle: top-left corner and size, in canvas pixels. */
  datatype Rect = Rect(x: real, y: real, w: real, h: real) {
    /** This rectangle lies inside `outer` (borders may touch). */
    predicate Within(outer: Rect) {
      outer.x <= x && x + w <= outer.x + outer.w && outer.y <= y && y + h <= outer.y + outer.h
    }
  }

  /** The two rectangles share no interior point. */
  predicate Disjoint(a: Rect, b: Rect) {
    a.x + a.w <= b.x || b.x + b.w <= a.x || a.y + a.h <= b.y || b.y + b.h <= a.y
  }

  /** `bg` is `box` grown by `px` on the left and right and by `py` above and below. */
  predicate Pads(bg: Rect, box: Rect, px: real, py: real) {
    bg.x == box.x - px && bg.x + bg.w == box.x + box.w + px
    && bg.y == box.y - py && bg.y + bg.h == box.y + box.h + py
  }

  /**
   * A fill or stroke style. `HexRgba` is the `rgba(...)` colour made from the
   * hexadecimal colour `hex` and `opacity` (its channels are read by
   * `MemeLayout.HexToRgba`); `HexAlpha` is a colour string followed by a
   * two-digit alpha byte.
   */
  datatype Paint =
    | Css(color: string)
    | HexRgba(hex: string, opacity: real)
    | HexAlpha(color: string, alphaByte: int)

  datatype Font = Font(weight: string, size: int, family: string)

  /**
   * `ctx.measureText(text).width` with `font` set: the platform's font
   * metrics, left abstract except that a width is never negative.
   */
  type Measure = m: (string, Font) -> real | forall text, font :: m(text, font) >= 0.0
    witness (text: string, font: Font) => 0.0

  datatype Align = AlignStart | AlignCenter

  datatype Baseline = BaselineTop | BaselineMiddle | BaselineBottom

  datatype Draw =
    | FillRect(rect: Rect, paint: Paint)
      /** Only issued for a bitmap that loaded: drawing a broken image throws instead. */
    | DrawImage(source: string, rect: Rect)
    | StrokeText(text: string, x: real, y: real, font: Font, align: Align, baseline: Baseline, lineWidth: int)
    | FillText(text: string, x: real, y: real, font: Font, align: Align, baseline: Baseline, paint: Paint)
      /** `save()` of the context state. */
    | Save
      /** `restore()` of the context state. */
    | Restore
      /** translate to the centre, rotate by `degrees`, translate back. */
    | RotateAbout(cx: real, cy: real, degrees: int)
      /** `canvas.toBlob(…, "image/png")`: the frame is final. */
    | Encode
}
