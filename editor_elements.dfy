/**
 * The free-form editor's elements and the pure updates its handlers apply to
 * the element list. The list order is the z-order: later elements are painted
 * over earlier ones.
 */
module EditorElements {
  import opened Basics
  import opened JsText
  import opened Canvas

  /** The editor's fixed canvas. */
  const CanvasWidth: real := 800.0
  const CanvasHeight: real := 800.0

  /** A text element's style; `fontFamily` is never set by the editor, so it is absent unless given. */
  datatype TextStyle = TextStyle(fontSize: int, color: string, fontWeight: string, fontFamily: Option<string>)

  /** The style the text form starts with. */
  const DefaultTextStyle: TextStyle := TextStyle(32, "#000000", "bold", None)

  datatype Content =
    | TextContent(text: string, style: TextStyle)
      /** An image element holds the `data:` URL the file reader produced. */
    | ImageContent(dataUrl: string)

  /** One element: its box (top-left corner and size) and its rotation in degrees. */
  datatype Element = Element(id: real, content: Content, x: real, y: real, width: real, height: real, rotation: int)

  /** The element keeps a rotation in [0, 360) and a positive size. */
  predicate WellFormed(el: Element) {
    0 <= el.rotation < 360 && el.width > 0.0 && el.height > 0.0
  }

  /** The element ids are pairwise different. */
  ghost predicate DistinctElementIds(els: seq<Element>) {
    forall i, j :: 0 <= i < j < |els| ==> els[i].id != els[j].id
  }

  /** `id` is not the id of any element. */
  predicate FreshId(els: seq<Element>, id: real) {
    forall i :: 0 <= i < |els| ==> els[i].id != id
  }

  /** The invariant the editor keeps over its element list. */
  ghost predicate ValidElements(els: seq<Element>) {
    DistinctElementIds(els) && forall i :: 0 <= i < |els| ==> WellFormed(els[i])
  }

  /** Appending a well-formed element under a fresh id keeps the invariant. */
  lemma AppendFreshKeepsValid(els: seq<Element>, e: Element)
    requires ValidElements(els) && FreshId(els, e.id) && WellFormed(e)
    ensures ValidElements(els + [e])
  {
    var r := els + [e];
    assert forall i :: 0 <= i < |els| ==> r[i] == els[i];
  }

  /** An update that keeps every id in place and keeps well-formed elements well-formed keeps the invariant. */
  lemma SameIdsKeepValid(els: seq<Element>, r: seq<Element>)
    requires ValidElements(els) && |r| == |els|
    requires forall i :: 0 <= i < |els| ==> r[i].id == els[i].id && (WellFormed(els[i]) ==> WellFormed(r[i]))
    ensures ValidElements(r)
  {
  }

  function Max(a: real, b: real): real { if a >= b then a else b }
  function Min(a: real, b: real): real { if a <= b then a else b }

  // ----- new elements -----------------------------------------------------

  /** The element `addText` appends: 200x50 at `(W/2 - 100, H/2)`, unrotated, with a copy of the style. */
  function NewTextElement(id: real, text: string, style: TextStyle): Element {
    Element(id, TextContent(text, style), CanvasWidth / 2.0 - 100.0, CanvasHeight / 2.0, 200.0, 50.0, 0)
  }

  /** A new text box is centred horizontally, but its top edge, not its centre, is on the middle line. */
  lemma NewTextPlacement(id: real, text: string, style: TextStyle)
    ensures var el := NewTextElement(id, text, style);
      && WellFormed(el)
      && el.x + el.width / 2.0 == CanvasWidth / 2.0
      && el.y == CanvasHeight / 2.0
      && el.y + el.height / 2.0 != CanvasHeight / 2.0
  {
  }

  /** The size an inserted image gets: its longer side is 200 and its aspect ratio is kept. */
  function ImageSize(imgWidth: nat, imgHeight: nat): (r: (real, real))
    requires imgWidth > 0 && imgHeight > 0
    ensures r.0 > 0.0 && r.1 > 0.0
    ensures Max(r.0, r.1) == 200.0
    ensures r.0 * (imgHeight as real) == r.1 * (imgWidth as real)
  {
    var aspectRatio := imgWidth as real / imgHeight as real;
    if aspectRatio > 1.0 then
      AspectFacts(imgWidth as real, imgHeight as real);
      (200.0, 200.0 / aspectRatio)
    else
      AspectFacts(imgWidth as real, imgHeight as real);
      (200.0 * aspectRatio, 200.0)
  }

  lemma AspectFacts(w: real, h: real)
    requires w > 0.0 && h > 0.0
    ensures w / h > 1.0 ==> 0.0 < 200.0 / (w / h) < 200.0 && 200.0 * h == (200.0 / (w / h)) * w
    ensures w / h <= 1.0 ==> 0.0 < 200.0 * (w / h) <= 200.0 && (200.0 * (w / h)) * h == 200.0 * w
  {
    var a := w / h;
    assert a * h == w;
    if a > 1.0 {
      var q := 200.0 / a;
      assert q * a == 200.0;
      assert q < 200.0 by {
        assert q * a > q * 1.0 by {
          assert q > 0.0;
          assert q * (a - 1.0) > 0.0;
        }
      }
      assert q * w == q * (a * h) == (q * a) * h;
    } else {
      assert 200.0 * a <= 200.0 * 1.0;
      assert (200.0 * a) * h == 200.0 * (a * h);
    }
  }

  /** The element an image upload appends: centred on the canvas, unrotated. */
  function NewImageElement(id: real, dataUrl: string, imgWidth: nat, imgHeight: nat): Element
    requires imgWidth > 0 && imgHeight > 0
  {
    var size := ImageSize(imgWidth, imgHeight);
    Element(id, ImageContent(dataUrl), CanvasWidth / 2.0 - size.0 / 2.0, CanvasHeight / 2.0 - size.1 / 2.0,
            size.0, size.1, 0)
  }

  /** An inserted image is centred, has 200 as its longer side (so it fits on the canvas) and keeps its ratio. */
  lemma NewImagePlacement(id: real, dataUrl: string, imgWidth: nat, imgHeight: nat)
    requires imgWidth > 0 && imgHeight > 0
    ensures var el := NewImageElement(id, dataUrl, imgWidth, imgHeight);
      && WellFormed(el)
      && el.x + el.width / 2.0 == CanvasWidth / 2.0 && el.y + el.height / 2.0 == CanvasHeight / 2.0
      && Max(el.width, el.height) == 200.0
      && el.width * (imgHeight as real) == el.height * (imgWidth as real)
      && 0.0 <= el.x && el.x + el.width <= CanvasWidth && 0.0 <= el.y && el.y + el.height <= CanvasHeight
  {
  }

  /** The insertion rule does not apply the 20-pixel minimum of `resizeElement`: a 1000x50 image becomes 200x10. */
  lemma ThinImageBelowMinimum()
    ensures ImageSize(1000, 50) == (200.0, 10.0)
  {
    assert 1000 as real / 50 as real == 20.0;
  }

  // ----- updates of the matching element ----------------------------------

  /** `prev.map(el => el.id === id ? f(el) : el)`. */
  function UpdateWhere(els: seq<Element>, id: real, f: Element -> Element): (r: seq<Element>)
    ensures |r| == |els|
    ensures forall i :: 0 <= i < |els| ==> r[i] == if els[i].id == id then f(els[i]) else els[i]
  {
    if els == [] then []
    else [if els[0].id == id then f(els[0]) else els[0]] + UpdateWhere(els[1..], id, f)
  }

  /** `rotateElement`: fifteen more degrees, wrapped with JavaScript's `%`. */
  function Rotated(el: Element): Element {
    el.(rotation := JsRem(el.rotation + 15, 360))
  }

  /** A rotation in [0, 360) stays there, and only the rotation changes. */
  lemma RotatedInRange(el: Element)
    requires 0 <= el.rotation < 360
    ensures 0 <= Rotated(el).rotation < 360
    ensures Rotated(el).rotation == if el.rotation < 345 then el.rotation + 15 else el.rotation - 345
    ensures Rotated(el).(rotation := el.rotation) == el
  {
  }

  /** `n` rotations from `r`. */
  function RotatedTimes(r: int, n: nat): int {
    if n == 0 then r else JsRem(RotatedTimes(r, n - 1) + 15, 360)
  }

  lemma {:induction false} RotatedTimesValue(r: int, n: nat)
    requires 0 <= r < 360
    ensures RotatedTimes(r, n) == (r + 15 * n) % 360
  {
    if n > 0 {
      RotatedTimesValue(r, n - 1);
      var p := RotatedTimes(r, n - 1);
      assert p + 15 >= 0;
      ModShift(r + 15 * (n - 1), 15);
    }
  }

  lemma ModShift(a: int, d: int)
    requires a >= 0 && d >= 0
    ensures (a % 360 + d) % 360 == (a + d) % 360
  {
    var q := a / 360;
    assert a == 360 * q + a % 360;
    ModAddTurns(a % 360 + d, q);
  }

  lemma ModAddTurns(b: int, q: int)
    requires q >= 0 && b >= 0
    ensures (360 * q + b) % 360 == b % 360
  {
    var r := b % 360;
    var t := b / 360;
    assert b == 360 * t + r;
    assert 360 * q + b == 360 * (q + t) + r;
  }

  /** Every multiple of twenty-four clicks on "rotate" brings any element back to where it started. */
  lemma FullTurn(r: int, k: nat)
    requires 0 <= r < 360
    ensures RotatedTimes(r, 24 * k) == r
  {
    RotatedTimesValue(r, 24 * k);
    assert r + 15 * (24 * k) == 360 * k + r;
    ModAddTurns(r, k);
  }

  /** `resizeElement`: each side takes the requested value, but never less than 20. */
  function Resized(el: Element, newWidth: real, newHeight: real): Element {
    el.(width := Max(20.0, newWidth), height := Max(20.0, newHeight))
  }

  lemma ResizedAtLeastMinimum(el: Element, newWidth: real, newHeight: real)
    ensures Resized(el, newWidth, newHeight).width >= 20.0 && Resized(el, newWidth, newHeight).height >= 20.0
    ensures newWidth >= 20.0 ==> Resized(el, newWidth, newHeight).width == newWidth
    ensures newHeight >= 20.0 ==> Resized(el, newWidth, newHeight).height == newHeight
    ensures newWidth < 20.0 ==> Resized(el, newWidth, newHeight).width == 20.0
    ensures newHeight < 20.0 ==> Resized(el, newWidth, newHeight).height == 20.0
    ensures Resized(el, newWidth, newHeight).(width := el.width, height := el.height) == el
  {
  }

  /** `Math.max(0, Math.min(limit, v))`. */
  function ClampPosition(v: real, limit: real): real {
    Max(0.0, Min(limit, v))
  }

  /** `handleMouseMove` for the dragged element: the cursor minus the grab offset, clamped to the canvas. */
  function DraggedTo(el: Element, targetX: real, targetY: real): Element {
    el.(x := ClampPosition(targetX, CanvasWidth - el.width), y := ClampPosition(targetY, CanvasHeight - el.height))
  }

  /**
   * A dragged element never leaves the top or left edge, stays inside the
   * canvas along each axis it fits on, lands where the cursor says when that
   * is inside, and keeps everything but its position.
   */
  lemma DragStaysOnCanvas(el: Element, targetX: real, targetY: real)
    ensures var d := DraggedTo(el, targetX, targetY);
      && d.x >= 0.0 && d.y >= 0.0
      && (el.width <= CanvasWidth ==> d.x + d.width <= CanvasWidth)
      && (el.height <= CanvasHeight ==> d.y + d.height <= CanvasHeight)
      && (0.0 <= targetX <= CanvasWidth - el.width ==> d.x == targetX)
      && (0.0 <= targetY <= CanvasHeight - el.height ==> d.y == targetY)
      && d.(x := el.x, y := el.y) == el
  {
  }

  /** An element wider than the canvas is pinned to the left edge and sticks out on the right. */
  lemma WideElementOverflows(el: Element, targetX: real, targetY: real)
    requires el.width > CanvasWidth
    ensures DraggedTo(el, targetX, targetY).x == 0.0
    ensures DraggedTo(el, targetX, targetY).x + el.width > CanvasWidth
  {
  }

  /** `parseInt(value) || fallback`: NaN and 0 both give the fallback. */
  function ParsedOr(value: string, fallback: int): int {
    match ParseInt(value, 0)
    case None => fallback
    case Some(n) => if n == 0 then fallback else n
  }

  /** The X field: `x: parseInt(value) || 0`, without any clamping. */
  function WithX(el: Element, value: string): Element {
    el.(x := ParsedOr(value, 0) as real)
  }

  /** The Y field: `y: parseInt(value) || 0`, without any clamping. */
  function WithY(el: Element, value: string): Element {
    el.(y := ParsedOr(value, 0) as real)
  }

  /** Typing a negative X moves the element off the left edge; only X changes. */
  lemma NumericXUnclamped(el: Element)
    ensures WithX(el, "-40").x == -40.0
    ensures WithX(el, "-40").(x := el.x) == el
  {
    var s := "-40";
    assert s[1..] == "40";
    assert DigitsValue(s[1..], 10) == 40 by {
      assert DigitsValue("4", 10) == 4 by { assert "4"[..0] == []; }
      assert "40"[..1] == "4";
    }
    ParseNegativeDecimal(s);
  }

  /** Typing a Y beyond the canvas moves the element below it; only Y changes. */
  lemma NumericYUnclamped(el: Element)
    ensures WithY(el, "900").y == 900.0 > CanvasHeight
    ensures WithY(el, "900").(y := el.y) == el
  {
    var s := "900";
    assert DigitsValue(s, 10) == 900 by {
      assert DigitsValue("9", 10) == 9 by { assert "9"[..0] == []; }
      assert DigitsValue("90", 10) == 90 by { assert "90"[..1] == "9"; }
      assert s[..2] == "90";
    }
    ParseDecimal(s);
  }

  /** A position field that is not a number puts the element at 0. */
  lemma NumericNotANumber(el: Element)
    ensures WithX(el, "abc").x == 0.0 && WithY(el, "abc").y == 0.0
  {
    assert ParseInt("abc", 0) == None by {
      assert TrimStart("abc") == "abc";
      assert DigitValue('a') == 10;
    }
  }

  // ----- the list updates the handlers make --------------------------------

  /** `rotateElement(id)` on the list. */
  function RotateElement(els: seq<Element>, id: real): (r: seq<Element>)
    ensures |r| == |els|
    ensures forall i :: 0 <= i < |els| ==> r[i] == if els[i].id == id then Rotated(els[i]) else els[i]
  {
    UpdateWhere(els, id, Rotated)
  }

  /** `resizeElement(id, newWidth, newHeight)` on the list. */
  function ResizeElement(els: seq<Element>, id: real, newWidth: real, newHeight: real): (r: seq<Element>)
    ensures |r| == |els|
    ensures forall i :: 0 <= i < |els| ==> r[i] == if els[i].id == id then Resized(els[i], newWidth, newHeight) else els[i]
  {
    UpdateWhere(els, id, (el: Element) => Resized(el, newWidth, newHeight))
  }

  /** The mouse-move update of the dragged element, to the cursor minus the grab offset. */
  function DragElement(els: seq<Element>, id: real, targetX: real, targetY: real): (r: seq<Element>)
    ensures |r| == |els|
    ensures forall i :: 0 <= i < |els| ==> r[i] == if els[i].id == id then DraggedTo(els[i], targetX, targetY) else els[i]
  {
    UpdateWhere(els, id, (el: Element) => DraggedTo(el, targetX, targetY))
  }

  /** The X field's update of the element with the id. */
  function TypeX(els: seq<Element>, id: real, value: string): (r: seq<Element>)
    ensures |r| == |els|
    ensures forall i :: 0 <= i < |els| ==> r[i] == if els[i].id == id then WithX(els[i], value) else els[i]
  {
    UpdateWhere(els, id, (el: Element) => WithX(el, value))
  }

  /** The Y field's update of the element with the id. */
  function TypeY(els: seq<Element>, id: real, value: string): (r: seq<Element>)
    ensures |r| == |els|
    ensures forall i :: 0 <= i < |els| ==> r[i] == if els[i].id == id then WithY(els[i], value) else els[i]
  {
    UpdateWhere(els, id, (el: Element) => WithY(el, value))
  }

  /** Grabbing an element that lies on the canvas and releasing it without moving the cursor leaves it in place. */
  lemma GrabWithoutMoving(el: Element, cursorX: real, cursorY: real)
    requires 0.0 <= el.x <= CanvasWidth - el.width && 0.0 <= el.y <= CanvasHeight - el.height
    ensures DraggedTo(el, cursorX - (cursorX - el.x), cursorY - (cursorY - el.y)) == el
  {
  }

  /** Rotating keeps every id, and keeps every rotation in [0, 360). */
  lemma RotateKeepsValid(els: seq<Element>, id: real)
    requires ValidElements(els)
    ensures ValidElements(RotateElement(els, id))
  {
    var r := RotateElement(els, id);
    forall i | 0 <= i < |els| ensures r[i].id == els[i].id && (WellFormed(els[i]) ==> WellFormed(r[i])) {
      if els[i].id == id && WellFormed(els[i]) {
        RotatedInRange(els[i]);
      }
    }
    SameIdsKeepValid(els, r);
  }

  /** Resizing keeps every id and a positive size. */
  lemma ResizeKeepsValid(els: seq<Element>, id: real, newWidth: real, newHeight: real)
    requires ValidElements(els)
    ensures ValidElements(ResizeElement(els, id, newWidth, newHeight))
  {
    SameIdsKeepValid(els, ResizeElement(els, id, newWidth, newHeight));
  }

  /** Dragging moves an element without changing anything the invariant speaks of. */
  lemma DragKeepsValid(els: seq<Element>, id: real, targetX: real, targetY: real)
    requires ValidElements(els)
    ensures ValidElements(DragElement(els, id, targetX, targetY))
  {
    SameIdsKeepValid(els, DragElement(els, id, targetX, targetY));
  }

  /** Typing a position moves an element without changing anything else. */
  lemma TypedPositionKeepsValid(els: seq<Element>, id: real, value: string)
    requires ValidElements(els)
    ensures ValidElements(TypeX(els, id, value)) && ValidElements(TypeY(els, id, value))
  {
    SameIdsKeepValid(els, TypeX(els, id, value));
    SameIdsKeepValid(els, TypeY(els, id, value));
  }

  // ----- lookup, duplicate, delete ------------------------------------------

  /** `elements.find(el => el.id === id)`, as the index of the first match. */
  function FindElement(els: seq<Element>, id: real): (r: Option<nat>)
    ensures r.Some? ==> r.value < |els| && els[r.value].id == id
    ensures r.Some? ==> forall j :: 0 <= j < r.value ==> els[j].id != id
    ensures r.None? ==> FreshId(els, id)
  {
    if els == [] then None
    else if els[0].id == id then Some(0)
    else match FindElement(els[1..], id)
      case None => None
      case Some(k) => Some(k + 1)
  }

  /** The copy `duplicateElement` appends: a fresh id, 20 pixels right and down, all else equal. */
  function Copied(el: Element, freshId: real): Element {
    el.(id := freshId, x := el.x + 20.0, y := el.y + 20.0)
  }

  /** `duplicateElement`: an unknown id changes nothing; otherwise the copy of the found element is appended. */
  function Duplicated(els: seq<Element>, id: real, freshId: real): seq<Element> {
    match FindElement(els, id)
    case None => els
    case Some(k) => els + [Copied(els[k], freshId)]
  }

  /**
   * Duplication leaves the existing elements untouched and, for a known id,
   * appends one element that differs from the original only in its fresh id
   * and its position, shifted by (20, 20).
   */
  lemma DuplicateSpec(els: seq<Element>, id: real, freshId: real)
    ensures FreshId(els, id) ==> Duplicated(els, id, freshId) == els
    ensures !FreshId(els, id) ==>
      var r := Duplicated(els, id, freshId);
      && |r| == |els| + 1 && r[..|els|] == els
      && exists k :: 0 <= k < |els| && els[k].id == id && (forall j :: 0 <= j < k ==> els[j].id != id)
           && r[|els|].(id := els[k].id, x := els[k].x, y := els[k].y) == els[k]
           && r[|els|].id == freshId && r[|els|].x == els[k].x + 20.0 && r[|els|].y == els[k].y + 20.0
  {
    match FindElement(els, id)
    case None =>
    case Some(k) =>
      var r := Duplicated(els, id, freshId);
      assert r[..|els|] == els;
      assert r[|els|].(id := els[k].id, x := els[k].x, y := els[k].y) == els[k];
  }

  /** `prev.filter(el => el.id !== id)`. */
  function WithoutElement(els: seq<Element>, id: real): (r: seq<Element>)
    ensures |r| <= |els|
  {
    if els == [] then []
    else (if els[0].id == id then [] else [els[0]]) + WithoutElement(els[1..], id)
  }

  /** What `WithoutElement` keeps: exactly the members of `els` that pass its test. */
  lemma {:induction false} WithoutElementMembers(els: seq<Element>, id: real)
    ensures forall e :: e in WithoutElement(els, id) <==> e in els && e.id != id
  {
    if els != [] {
      WithoutElementMembers(els[1..], id);
      assert els == [els[0]] + els[1..];
    }
  }

  lemma {:induction false} WithoutAbsentElement(els: seq<Element>, id: real)
    requires FreshId(els, id)
    ensures WithoutElement(els, id) == els
  {
    if els != [] {
      WithoutAbsentElement(els[1..], id);
    }
  }

  /** With distinct ids, deleting an element's id takes out exactly that element and keeps the order of the rest. */
  lemma {:induction false} DeleteUnique(els: seq<Element>, k: nat)
    requires DistinctElementIds(els) && k < |els|
    ensures WithoutElement(els, els[k].id) == els[..k] + els[k + 1..]
  {
    var id := els[k].id;
    var rest := els[1..];
    DistinctTail(els);
    if k == 0 {
      assert WithoutElement(els, id) == WithoutElement(rest, id) by {
        assert WithoutElement(els, id) == [] + WithoutElement(rest, id);
      }
      WithoutAbsentElement(rest, id);
      assert els[k + 1..] == rest;
    } else {
      ghost var tail := rest[..k - 1] + rest[k..];
      assert WithoutElement(rest, id) == tail by {
        DeleteUnique(rest, k - 1);
      }
      assert WithoutElement(els, id) == [els[0]] + tail by {
        assert els[0].id != id;
      }
      assert els[..k] + els[k + 1..] == [els[0]] + tail;
    }
  }

  lemma DistinctTail(els: seq<Element>)
    requires DistinctElementIds(els) && els != []
    ensures DistinctElementIds(els[1..])
    ensures FreshId(els[1..], els[0].id)
  {
    assert forall j :: 0 <= j < |els| - 1 ==> els[1..][j] == els[j + 1];
  }

  /** Filtering keeps distinct ids and well-formedness. */
  lemma {:induction false} WithoutElementPreserves(els: seq<Element>, id: real)
    requires ValidElements(els)
    ensures ValidElements(WithoutElement(els, id))
  {
    if els != [] {
      var e, tail := els[0], els[1..];
      DistinctTail(els);
      assert ValidElements(tail) by {
        assert forall i :: 0 <= i < |tail| ==> tail[i] == els[i + 1];
      }
      WithoutElementPreserves(tail, id);
      ghost var rest := WithoutElement(tail, id);
      if e.id == id {
        assert WithoutElement(els, id) == [] + rest;
      } else {
        assert WithoutElement(els, id) == [e] + rest;
        assert FreshId(rest, e.id) by {
          WithoutElementMembers(tail, id);
          forall i | 0 <= i < |rest| ensures rest[i].id != e.id {
            assert rest[i] in tail;
          }
        }
        ConsKeepsValid(e, rest);
      }
    }
  }

  lemma ConsKeepsValid(e: Element, rest: seq<Element>)
    requires ValidElements(rest) && WellFormed(e) && FreshId(rest, e.id)
    ensures ValidElements([e] + rest)
  {
    var r := [e] + rest;
    assert forall i :: 1 <= i < |r| ==> r[i] == rest[i - 1];
  }

  // ----- rendering ----------------------------------------------------------

  /** What one element paints: text at its corner with a top baseline, or the image stretched to its box. */
  function ElementPaint(el: Element): Draw {
    match el.content
    case TextContent(text, style) =>
      FillText(text, el.x, el.y, Font(style.fontWeight, style.fontSize, style.fontFamily.GetOr("Arial")),
               AlignStart, BaselineTop, Css(style.color))
    case ImageContent(url) =>
      DrawImage(url, Rect(el.x, el.y, el.width, el.height))
  }

  /** One iteration of the render loop: save, rotate about the centre when the rotation is not 0, paint, restore. */
  function ElementDraws(el: Element): seq<Draw> {
    [Save]
    + (if el.rotation != 0 then [RotateAbout(el.x + el.width / 2.0, el.y + el.height / 2.0, el.rotation)] else [])
    + [ElementPaint(el)]
    + [Restore]
  }

  /** The render loop over `els`, in list order. */
  function Walk(els: seq<Element>): seq<Draw> {
    if els == [] then [] else Walk(els[..|els| - 1]) + ElementDraws(els[|els| - 1])
  }

  lemma WalkStep(els: seq<Element>, i: nat)
    requires i < |els|
    ensures Walk(els[..i + 1]) == Walk(els[..i]) + ElementDraws(els[i])
  {
    assert els[..i + 1][..i] == els[..i];
  }

  /** The white background over the whole canvas. */
  const Background: Draw := FillRect(Rect(0.0, 0.0, CanvasWidth, CanvasHeight), Css("white"))

  /** An element the render loop can draw: text, or an image whose `data:` URL loads. */
  predicate Drawable(el: Element, decoded: string -> bool) {
    el.content.ImageContent? ==> decoded(el.content.dataUrl)
  }

  /** Every element can be drawn, so the render loop runs to the end. */
  predicate AllDrawable(els: seq<Element>, decoded: string -> bool) {
    forall i :: 0 <= i < |els| ==> Drawable(els[i], decoded)
  }

  /** `generateCanvasBlob` when every element can be drawn: background, every element in list order, then the encoding. */
  function Render(els: seq<Element>): seq<Draw> {
    [Background] + Walk(els) + [Encode]
  }

  /** The paint commands (text fills and image draws), in order. */
  function Painted(cmds: seq<Draw>): seq<Draw> {
    if cmds == [] then []
    else Painted(cmds[..|cmds| - 1])
         + (if cmds[|cmds| - 1].FillText? || cmds[|cmds| - 1].DrawImage? then [cmds[|cmds| - 1]] else [])
  }

  /** The context operations the render loop counts. */
  datatype Marker = SaveMarker | RestoreMarker | RotateMarker

  predicate IsMarker(d: Draw, m: Marker) {
    match m
    case SaveMarker => d.Save?
    case RestoreMarker => d.Restore?
    case RotateMarker => d.RotateAbout?
  }

  /** The number of commands of one kind. */
  function Markers(cmds: seq<Draw>, m: Marker): nat {
    if cmds == [] then 0 else Markers(cmds[..|cmds| - 1], m) + (if IsMarker(cmds[|cmds| - 1], m) then 1 else 0)
  }

  /** The number of elements with a rotation other than 0. */
  function TurnedCount(els: seq<Element>): nat {
    if els == [] then 0 else TurnedCount(els[..|els| - 1]) + (if els[|els| - 1].rotation != 0 then 1 else 0)
  }

  lemma {:induction false} PaintedConcat(a: seq<Draw>, b: seq<Draw>)
    ensures Painted(a + b) == Painted(a) + Painted(b)
  {
    if b == [] {
      assert a + b == a;
    } else {
      PaintedConcat(a, b[..|b| - 1]);
      assert (a + b)[..|a + b| - 1] == a + b[..|b| - 1];
    }
  }

  lemma {:induction false} MarkersConcat(a: seq<Draw>, b: seq<Draw>, m: Marker)
    ensures Markers(a + b, m) == Markers(a, m) + Markers(b, m)
  {
    if b == [] {
      assert a + b == a;
    } else {
      MarkersConcat(a, b[..|b| - 1], m);
      assert (a + b)[..|a + b| - 1] == a + b[..|b| - 1];
    }
  }

  lemma PaintedOne(d: Draw)
    ensures Painted([d]) == (if d.FillText? || d.DrawImage? then [d] else [])
  {
    assert [d][..0] == [];
  }

  lemma MarkersOne(d: Draw, m: Marker)
    ensures Markers([d], m) == (if IsMarker(d, m) then 1 else 0)
  {
    assert [d][..0] == [];
  }

  /** The optional rotation of one element, about its centre. */
  function Turn(el: Element): seq<Draw> {
    if el.rotation != 0 then [RotateAbout(el.x + el.width / 2.0, el.y + el.height / 2.0, el.rotation)] else []
  }

  lemma ElementDrawsParts(el: Element)
    ensures ElementDraws(el) == [Save] + Turn(el) + [ElementPaint(el)] + [Restore]
  {
  }

  /** One element paints exactly once. */
  lemma ElementPaintsOnce(el: Element)
    ensures Painted(ElementDraws(el)) == [ElementPaint(el)]
  {
    var p, t := ElementPaint(el), Turn(el);
    ElementDrawsParts(el);
    PaintedOne(Save);
    PaintedOne(p);
    PaintedOne(Restore);
    if t != [] {
      PaintedOne(t[0]);
      assert [t[0]] == t;
    } else {
      assert Painted(t) == [];
    }
    PaintedConcat([Save], t);
    PaintedConcat([Save] + t, [p]);
    PaintedConcat([Save] + t + [p], [Restore]);
  }

  /** One element saves once, restores once, and rotates exactly when its rotation is not 0. */
  lemma ElementMarkers(el: Element, m: Marker)
    ensures Markers(ElementDraws(el), m) == if m == RotateMarker then (if el.rotation != 0 then 1 else 0) else 1
  {
    var p, t := ElementPaint(el), Turn(el);
    ElementDrawsParts(el);
    MarkersOne(Save, m);
    MarkersOne(p, m);
    MarkersOne(Restore, m);
    if t != [] {
      MarkersOne(t[0], m);
      assert [t[0]] == t;
    } else {
      assert Markers(t, m) == 0;
    }
    MarkersConcat([Save], t, m);
    MarkersConcat([Save] + t, [p], m);
    MarkersConcat([Save] + t + [p], [Restore], m);
  }

  /** The render walk paints every element exactly once, in list order, so later elements end up on top. */
  lemma {:induction false} WalkPaintsInOrder(els: seq<Element>)
    ensures Painted(Walk(els)) == Map((el: Element) => ElementPaint(el), els)
  {
    var f := (el: Element) => ElementPaint(el);
    if els == [] {
      assert Map(f, els) == [];
    } else {
      var init, last := els[..|els| - 1], els[|els| - 1];
      ghost var w, d := Walk(init), ElementDraws(last);
      assert Walk(els) == w + d;
      WalkPaintsInOrder(init);
      ElementPaintsOnce(last);
      PaintedConcat(w, d);
      assert Painted(Walk(els)) == Map(f, init) + [f(last)];
      assert els == init + [last];
      MapConcat(f, init, [last]);
      assert Map(f, [last]) == [f(last)];
    }
  }

  /**
   * The render walk balances every `save()` with a `restore()`, one pair per
   * element, and rotates exactly the elements whose rotation is not 0.
   */
  lemma {:induction false} WalkMarkers(els: seq<Element>, m: Marker)
    ensures Markers(Walk(els), m) == if m == RotateMarker then TurnedCount(els) else |els|
  {
    if els != [] {
      var init, last := els[..|els| - 1], els[|els| - 1];
      WalkMarkers(init, m);
      ElementMarkers(last, m);
      MarkersConcat(Walk(init), ElementDraws(last), m);
    }
  }

  /** The rendered frame starts with the white background and ends with the encoding; elements paint in between. */
  lemma RenderFrame(els: seq<Element>)
    ensures var r := Render(els);
      && r[0] == Background && r[|r| - 1] == Encode
      && Painted(r) == Map((el: Element) => ElementPaint(el), els)
  {
    var w := Walk(els);
    WalkPaintsInOrder(els);
    PaintedOne(Background);
    PaintedOne(Encode);
    PaintedConcat([Background], w);
    PaintedConcat([Background] + w, [Encode]);
  }
}
