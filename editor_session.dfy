/**
 * The free-form editor (the `InteractifGen` component): its state, the
 * handlers that change it, and the render loop that turns the element list
 * into canvas commands.
 */
module InteractifGen {
  import opened Basics
  import opened JsText
  import opened Canvas
  import opened EditorElements

  /** What saving does first: refuse without a title, refuse without elements, or go on. */
  datatype SaveStep = MissingTitle | NoElements | Proceed

  /** JavaScript truthiness of the selection: `null` and the id 0 are both falsy. */
  predicate IsTruthy(sel: Option<real>) {
    sel.Some? && sel.value != 0.0
  }

  class Editor {
    var elements: seq<Element>
    var selectedElement: Option<real>
    var dragOffsetX: real
    var dragOffsetY: real
    var isDragging: bool
    var textInput: string
    var showTextInput: bool
    var textStyle: TextStyle
    var title: string

    ghost predicate Valid()
      reads this
    {
      ValidElements(elements)
    }

    constructor()
      ensures Valid()
      ensures elements == [] && selectedElement == None && !isDragging
      ensures dragOffsetX == 0.0 && dragOffsetY == 0.0
      ensures textInput == "" && !showTextInput && textStyle == DefaultTextStyle && title == ""
    {
      elements := [];
      selectedElement := None;
      dragOffsetX, dragOffsetY := 0.0, 0.0;
      isDragging := false;
      textInput := "";
      showTextInput := false;
      textStyle := DefaultTextStyle;
      title := "";
    }

    // ----- the form controls ------------------------------------------------

    method SetTitle(value: string)
      modifies this`title
      ensures title == value
    {
      title := value;
    }

    /** The "add text" button shows or hides the text form. */
    method ToggleTextInput()
      modifies this`showTextInput
      ensures showTextInput == !old(showTextInput)
    {
      showTextInput := !showTextInput;
    }

    method SetTextInput(value: string)
      modifies this`textInput
      ensures textInput == value
    {
      textInput := value;
    }

    /** The font-size slider; it only offers whole sizes from 12 to 72. */
    method SetFontSize(size: int)
      requires 12 <= size <= 72
      modifies this`textStyle
      ensures textStyle == old(textStyle).(fontSize := size)
    {
      textStyle := textStyle.(fontSize := size);
    }

    method SetTextColor(color: string)
      modifies this`textStyle
      ensures textStyle == old(textStyle).(color := color)
    {
      textStyle := textStyle.(color := color);
    }

    // ----- adding elements ----------------------------------------------------

    /**
     * `addText`: a blank input adds nothing; otherwise the untrimmed input is
     * appended as a text element with a copy of the current style, and the
     * form is cleared and hidden.
     */
    method AddText(freshId: real)
      requires Valid() && FreshId(elements, freshId)
      modifies this`elements, this`textInput, this`showTextInput
      ensures Valid()
      ensures Blank(old(textInput)) ==>
        elements == old(elements) && textInput == old(textInput) && showTextInput == old(showTextInput)
      ensures !Blank(old(textInput)) ==>
        && elements == old(elements) + [NewTextElement(freshId, old(textInput), textStyle)]
        && textInput == "" && !showTextInput
    {
      TrimEmptyIffBlank(textInput);
      if Trim(textInput) == [] {
        return;
      }
      var el := NewTextElement(freshId, textInput, textStyle);
      NewTextPlacement(freshId, textInput, textStyle);
      AppendFreshKeepsValid(elements, el);
      elements := elements + [el];
      textInput := "";
      showTextInput := false;
    }

    /** The image's `onload`: the decoded image is appended, centred, at its insertion size. */
    method InsertImage(dataUrl: string, imgWidth: nat, imgHeight: nat, freshId: real)
      requires imgWidth > 0 && imgHeight > 0
      requires Valid() && FreshId(elements, freshId)
      modifies this`elements
      ensures Valid()
      ensures elements == old(elements) + [NewImageElement(freshId, dataUrl, imgWidth, imgHeight)]
    {
      var el := NewImageElement(freshId, dataUrl, imgWidth, imgHeight);
      NewImagePlacement(freshId, dataUrl, imgWidth, imgHeight);
      AppendFreshKeepsValid(elements, el);
      elements := elements + [el];
    }

    // ----- dragging -----------------------------------------------------------

    /** `handleMouseDown` on element `i`: select it, start dragging, and remember where in the box it was grabbed. */
    method MouseDown(i: nat, cursorX: real, cursorY: real)
      requires i < |elements|
      modifies this`selectedElement, this`isDragging, this`dragOffsetX, this`dragOffsetY
      ensures selectedElement == Some(elements[i].id) && isDragging
      ensures dragOffsetX == cursorX - elements[i].x && dragOffsetY == cursorY - elements[i].y
    {
      selectedElement := Some(elements[i].id);
      isDragging := true;
      dragOffsetX := cursorX - elements[i].x;
      dragOffsetY := cursorY - elements[i].y;
    }

    /** `handleMouseMove`: while dragging a selection, the selected element follows the cursor, clamped to the canvas. */
    method MouseMove(cursorX: real, cursorY: real)
      requires Valid()
      modifies this`elements
      ensures Valid()
      ensures !isDragging || !IsTruthy(selectedElement) ==> elements == old(elements)
      ensures isDragging && IsTruthy(selectedElement) ==>
        elements == DragElement(old(elements), selectedElement.value, cursorX - dragOffsetX, cursorY - dragOffsetY)
    {
      if !isDragging || !IsTruthy(selectedElement) {
        return;
      }
      var id, targetX, targetY := selectedElement.value, cursorX - dragOffsetX, cursorY - dragOffsetY;
      DragKeepsValid(elements, id, targetX, targetY);
      elements := DragElement(elements, id, targetX, targetY);
    }

    /** `handleMouseUp`: stop dragging and forget the grab offset; the selection stays. */
    method MouseUp()
      modifies this`isDragging, this`dragOffsetX, this`dragOffsetY
      ensures !isDragging && dragOffsetX == 0.0 && dragOffsetY == 0.0
    {
      isDragging := false;
      dragOffsetX, dragOffsetY := 0.0, 0.0;
    }

    // ----- element actions ----------------------------------------------------

    /** `duplicateElement`: append a shifted copy of the element with the id, if there is one. */
    method Duplicate(id: real, freshId: real)
      requires Valid() && FreshId(elements, freshId)
      modifies this`elements
      ensures Valid()
      ensures elements == Duplicated(old(elements), id, freshId)
    {
      var found := FindElement(elements, id);
      if found.None? {
        return;
      }
      var copy := Copied(elements[found.value], freshId);
      AppendFreshKeepsValid(elements, copy);
      elements := elements + [copy];
    }

    /** `deleteElement`: drop the element with the id, and the selection if it was that element. */
    method Delete(id: real)
      requires Valid()
      modifies this`elements, this`selectedElement
      ensures Valid()
      ensures elements == WithoutElement(old(elements), id)
      ensures selectedElement == if old(selectedElement) == Some(id) then None else old(selectedElement)
    {
      WithoutElementPreserves(elements, id);
      elements := WithoutElement(elements, id);
      if selectedElement == Some(id) {
        selectedElement := None;
      }
    }

    /** `rotateElement`: fifteen degrees more for the element with the id. */
    method Rotate(id: real)
      requires Valid()
      modifies this`elements
      ensures Valid()
      ensures elements == RotateElement(old(elements), id)
    {
      RotateKeepsValid(elements, id);
      elements := RotateElement(elements, id);
    }

    /** `resizeElement`: the requested size for the element with the id, at least 20 on each side. */
    method Resize(id: real, newWidth: real, newHeight: real)
      requires Valid()
      modifies this`elements
      ensures Valid()
      ensures elements == ResizeElement(old(elements), id, newWidth, newHeight)
    {
      ResizeKeepsValid(elements, id, newWidth, newHeight);
      elements := ResizeElement(elements, id, newWidth, newHeight);
    }

    /**
     * The corner handle: the size the element had when the handle was
     * grabbed, plus how far the cursor has moved since.
     */
    method ResizeByHandle(id: real, startWidth: real, startHeight: real, startX: real, startY: real, cursorX: real, cursorY: real)
      requires Valid()
      modifies this`elements
      ensures Valid()
      ensures elements == ResizeElement(old(elements), id, startWidth + (cursorX - startX), startHeight + (cursorY - startY))
    {
      Resize(id, startWidth + (cursorX - startX), startHeight + (cursorY - startY));
    }

    // ----- the properties panel of the selected element -------------------------

    /** The X field: the typed whole number, or 0, for the selected element. */
    method EditX(value: string)
      requires Valid()
      modifies this`elements
      ensures Valid()
      ensures selectedElement.None? ==> elements == old(elements)
      ensures selectedElement.Some? ==> elements == TypeX(old(elements), selectedElement.value, value)
    {
      if selectedElement.Some? {
        TypedPositionKeepsValid(elements, selectedElement.value, value);
        elements := TypeX(elements, selectedElement.value, value);
      }
    }

    /** The Y field: the typed whole number, or 0, for the selected element. */
    method EditY(value: string)
      requires Valid()
      modifies this`elements
      ensures Valid()
      ensures selectedElement.None? ==> elements == old(elements)
      ensures selectedElement.Some? ==> elements == TypeY(old(elements), selectedElement.value, value)
    {
      if selectedElement.Some? {
        TypedPositionKeepsValid(elements, selectedElement.value, value);
        elements := TypeY(elements, selectedElement.value, value);
      }
    }

    /** The width field: the typed number, or 20, with the selected element's height unchanged. */
    method EditWidth(value: string)
      requires Valid()
      requires selectedElement.Some? && FindElement(elements, selectedElement.value).Some?
      modifies this`elements
      ensures Valid()
      ensures var sel := old(elements)[FindElement(old(elements), selectedElement.value).value];
        elements == ResizeElement(old(elements), selectedElement.value, ParsedOr(value, 20) as real, sel.height)
    {
      var sel := elements[FindElement(elements, selectedElement.value).value];
      Resize(selectedElement.value, ParsedOr(value, 20) as real, sel.height);
    }

    /** The height field: the typed number, or 20, with the selected element's width unchanged. */
    method EditHeight(value: string)
      requires Valid()
      requires selectedElement.Some? && FindElement(elements, selectedElement.value).Some?
      modifies this`elements
      ensures Valid()
      ensures var sel := old(elements)[FindElement(old(elements), selectedElement.value).value];
        elements == ResizeElement(old(elements), selectedElement.value, sel.width, ParsedOr(value, 20) as real)
    {
      var sel := elements[FindElement(elements, selectedElement.value).value];
      Resize(selectedElement.value, sel.width, ParsedOr(value, 20) as real);
    }

    /** A click in the element list selects that element. */
    method SelectFromList(i: nat)
      requires i < |elements|
      modifies this`selectedElement
      ensures selectedElement == Some(elements[i].id)
    {
      selectedElement := Some(elements[i].id);
    }

    /** A click on the canvas clears the selection only when it lands on the canvas itself, not on an element. */
    method ClickCanvas(onBackground: bool)
      modifies this`selectedElement
      ensures selectedElement == if onBackground then None else old(selectedElement)
    {
      if onBackground {
        selectedElement := None;
      }
    }

    // ----- rendering and saving ---------------------------------------------------

    /**
     * `generateCanvasBlob`: paint the background, then each element in list
     * order inside its own save/restore pair, then encode. `decoded` tells
     * which `data:` URLs load as images. `drawImage` on an image that failed
     * to load throws, so the first such element ends the pass with `None`:
     * the promise rejects and nothing is encoded.
     */
    method GenerateCanvasBlob(decoded: string -> bool) returns (r: Option<seq<Draw>>)
      ensures r.None? <==> !AllDrawable(elements, decoded)
      ensures r.Some? ==> r.value == Render(elements)
    {
      var cmds := [Background];
      for i := 0 to |elements|
        invariant cmds == [Background] + Walk(elements[..i])
        invariant forall j :: 0 <= j < i ==> Drawable(elements[j], decoded)
      {
        var el := elements[i];
        var turn := [];
        if el.rotation != 0 {
          turn := [RotateAbout(el.x + el.width / 2.0, el.y + el.height / 2.0, el.rotation)];
        }
        var paint;
        match el.content {
          case TextContent(text, style) =>
            var font := Font(style.fontWeight, style.fontSize, style.fontFamily.GetOr("Arial"));
            paint := FillText(text, el.x, el.y, font, AlignStart, BaselineTop, Css(style.color));
          case ImageContent(url) =>
            if !decoded(url) {
              assert !Drawable(elements[i], decoded);
              return None;
            }
            paint := DrawImage(url, Rect(el.x, el.y, el.width, el.height));
        }
        var step := [Save] + turn + [paint] + [Restore];
        assert step == ElementDraws(el) by {
          ElementDrawsParts(el);
        }
        WalkStep(elements, i);
        ghost var walked := Walk(elements[..i]);
        AppendAssoc([Background], walked, step);
        cmds := cmds + step;
      }
      assert elements[..|elements|] == elements;
      r := Some(cmds + [Encode]);
    }

    /** `handleSaveCanvas`'s two checks, in order: a title that is not blank, then at least one element. */
    function SaveCheck(): (r: SaveStep)
      reads this
      ensures r == MissingTitle <==> Blank(title)
      ensures r == NoElements <==> !Blank(title) && elements == []
      ensures r == Proceed <==> !Blank(title) && elements != []
    {
      TrimEmptyIffBlank(title);
      if Trim(title) == [] then MissingTitle
      else if |elements| == 0 then NoElements
      else Proceed
    }
  }
}
