# memes_front core in Dafny

This project models the two editing components of the memes_front web client
and proves properties about them:

- **MemeGenerator** (`src/components/MemeGenerator.js`) lays one to four
  uploaded pictures out on a canvas in one of four display modes. The modes
  are single, horizontal pair, vertical pair and 2×2 grid. It draws top,
  bottom and click-placed captions over the pictures and exports the result
  as a PNG preview. This project models:
  - the session state and its handlers;
  - the object-URL lifecycle of the previews: every URL still shown is live,
    and a dropped image's URL is revoked;
  - the layout of cells on the canvas and the aspect-preserving fit of each
    picture in its cell;
  - the caption geometry and the hex-to-rgba conversion;
  - the draw commands that the asynchronous load callbacks issue, in
    arrival order, with the load counter that finalises the picture exactly
    once.
- **InteractifGen** (`src/components/InteractifGen.js`) is a free-form
  800×800 editor of text and image elements. This project models adding
  text and images and dragging them, which clamps them to the canvas. It also
  models rotating in 15° steps, resizing with a 20 px minimum, duplicating,
  deleting, and typing numbers into the properties panel. Finally, it models
  the render loop that paints every element (save, optional rotation about
  the centre, paint, restore) and the checks made before saving.

The modules follow the program's structure:

| module | file | contents |
|---|---|---|
| `Basics` | basics.dfy | `Option`, `Map`, distinctness, sequence associativity |
| `JsText` | js_text.dfy | JavaScript `trim`, `slice`, `parseInt`, `%` |
| `Canvas` | canvas.dfy | rectangles, paints, fonts and the recorded 2D-context commands |
| `MemeLayout` | meme_layout.dfy | display modes, cells, contain-fit, caption boxes, `hexToRgba` |
| `MemeImages` | meme_images.dfy | image-list and caption-list updates as functions |
| `MemeComposite` | meme_composite.dfy | `drawTextsOnCanvas` and the load-callback frame |
| `MemeGenerator` | meme_session.dfy | class `MemeSession`: the component's state and handlers |
| `EditorElements` | editor_elements.dfy | elements, their updates, and the render walk as functions |
| `InteractifGen` | editor_session.dfy | class `Editor`: the editor's state and handlers |

React state becomes class fields. Each `setX(prev => …)` handler becomes a
method whose `ensures` gives the new state as a function of the old one. The
list updates (`filter`, `map`, `slice`) are functions proved against
independent descriptions (membership, pointwise effect, multiset
partition). The canvas is a recorder: drawing produces a `seq<Draw>`, and
the PNG encoding is the symbolic command `Encode`. Loops in the source
(`drawTextsOnCanvas`'s `forEach`, the render `for … of`, the load counter)
are methods with loop invariants.

## Model

| member | source | states |
|---|---|---|
| `Basics.Map` | src/components/MemeGenerator.js:63-68 | the mapped list has the same length and holds `f` of each element at the same index |
| `Basics.MapConcat` | src/components/InteractifGen.js:190-218 | mapping distributes over concatenation |
| `Basics.DistinctConcat` | src/components/MemeGenerator.js:63-68 | two duplicate-free lists with no common element concatenate to a duplicate-free list |
| `JsText.TrimStart` | src/components/InteractifGen.js:34 | the result is a suffix of the input, everything cut is whitespace and the result does not start with whitespace |
| `JsText.TrimEnd` | src/components/InteractifGen.js:34 | the result is a prefix of the input, everything cut is whitespace and the result does not end with whitespace |
| `JsText.TrimEmptyIffBlank` | src/components/MemeGenerator.js:346 | `trim()` yields the empty string exactly when the string is all whitespace, which is what the title and text guards test |
| `JsText.Slice` | src/components/MemeGenerator.js:32-34 | `slice(a, b)` clamps both ends to the length and copies the characters in between |
| `JsText.DigitValue` | src/components/MemeGenerator.js:32-34 | a character has a digit value below 36 exactly when it is a decimal digit or a Latin letter of either case; any other character gets 36 |
| `JsText.DigitRun` | src/components/MemeGenerator.js:32-34 | the run is the longest prefix of digits valid in the radix |
| `JsText.ParseDecimal` | src/components/InteractifGen.js:447-461 | `parseInt` of a string of decimal digits is its decimal value |
| `JsText.ParseNegativeDecimal` | src/components/InteractifGen.js:447-461 | `parseInt` of `-` followed by decimal digits is the negated value |
| `JsText.DecimalRun` | src/components/InteractifGen.js:447-461 | a string of decimal digits is read in full |
| `JsText.HexDigit` | src/components/MemeGenerator.js:32-34 | each lower-case hex digit reads back as its value |
| `JsText.ParseHexByte` | src/components/MemeGenerator.js:32-34 | `parseInt(·, 16)` of the two-digit hex form of a byte is that byte |
| `JsText.RemainderDivides` | src/components/InteractifGen.js:167 | taking the remainder away from a non-negative dividend leaves a multiple of the divisor |
| `JsText.MultipleMod` | src/components/InteractifGen.js:167 | a multiple of the divisor leaves no remainder |
| `JsText.NegatedMultiple` | src/components/InteractifGen.js:167 | the negation of a multiple is a multiple |
| `JsText.JsRem` | src/components/InteractifGen.js:167 | JavaScript `%` truncates: the remainder takes the dividend's sign, is smaller than the divisor in magnitude, and differs from the dividend by a multiple of the divisor |
| `MemeLayout.CellRect` | src/components/MemeGenerator.js:273-286 | every cell has positive width and height |
| `MemeLayout.CellInsideCanvas` | src/components/MemeGenerator.js:136-148 | for as many images as the mode allows, every cell lies inside that mode's canvas |
| `MemeLayout.CellsDisjoint` | src/components/MemeGenerator.js:273-286 | the cells of two different images do not overlap |
| `MemeLayout.CellsAtMaximum` | src/components/MemeGenerator.js:273-286 | the concrete 500×500 grid quadrants and the 600×600 halves of the split modes |
| `MemeLayout.NoSplitBelowTwo` | src/components/MemeGenerator.js:275-280 | a horizontal or vertical layout with one image gives that image the whole canvas |
| `MemeLayout.ContainFit` | src/components/MemeGenerator.js:293-312 | the fitted picture lies in its cell, fills the cell's width or height, is centred both ways and keeps the picture's aspect ratio |
| `MemeLayout.WiderFits` | src/components/MemeGenerator.js:300-304 | a picture wider than the cell's ratio gets a height that is positive, below the cell's, and in proportion |
| `MemeLayout.TallerFits` | src/components/MemeGenerator.js:305-310 | a picture no wider than the cell's ratio gets a width that is positive, at most the cell's, and in proportion |
| `MemeLayout.ContainFitUpscales` | src/components/MemeGenerator.js:293-312 | a picture smaller than its cell is scaled up, never drawn at natural size |
| `MemeLayout.ScaleUp` | src/components/MemeGenerator.js:293-312 | the proportionality step behind the upscaling |
| `MemeLayout.FontSizesPerMode` | src/components/MemeGenerator.js:159-223 | caption font sizes are 53/40 (single), 80/60 (horizontal), 40/30 (vertical) and 66/50 (grid) |
| `MemeLayout.TopBackground` | src/components/MemeGenerator.js:170-176 | the top caption's background pads its text box by 10 px sideways and 5 px vertically |
| `MemeLayout.BottomBackground` | src/components/MemeGenerator.js:202-208 | the bottom caption's background pads its text box above the baseline in the same way |
| `MemeLayout.CustomBackground` | src/components/MemeGenerator.js:229-239 | a placed caption's background pads a box centred on the click point |
| `MemeLayout.BackgroundSize` | src/components/MemeGenerator.js:170-208 | the backgrounds are text width + 20 by font size + 10; the top one starts at y = 15 and the bottom one starts font size + 65 px above the canvas bottom; for a non-negative text width both are at least 20 px wide |
| `MemeLayout.HexToRgba` | src/components/MemeGenerator.js:31-36 | the opacity is carried through unchanged |
| `MemeLayout.ColorHex` | src/components/MemeGenerator.js:561-570 | a colour picker's value is seven characters long |
| `MemeLayout.HexToRgbaReadsChannels` | src/components/MemeGenerator.js:31-36 | `hexToRgba` reads back the red, green and blue bytes of a `#rrggbb` colour |
| `MemeImages.ValidFiles` | src/components/MemeGenerator.js:55-61 | the kept files are no more than the files given |
| `MemeImages.ValidFilesMembers` | src/components/MemeGenerator.js:55-61 | a file is kept exactly when it was given and is at most 5 MB |
| `MemeImages.TooLargeMembers` | src/components/MemeGenerator.js:55-61 | a file is reported exactly when it was given and exceeds 5 MB |
| `MemeImages.UploadPartitionsFiles` | src/components/MemeGenerator.js:55-61 | kept and rejected files together are exactly the given files, as a multiset |
| `MemeImages.ValidFilesConcat` | src/components/MemeGenerator.js:55-61 | filtering two batches equals filtering them together |
| `MemeImages.UploadSpec` | src/components/MemeGenerator.js:46-74 | an upload past the mode's maximum changes nothing; otherwise the old list is kept as a prefix, the files within 5 MB follow in order with the minted previews, and the count stays within the maximum |
| `MemeImages.WithoutImage` | src/components/MemeGenerator.js:78 | removal never lengthens the list |
| `MemeImages.WithoutImageMembers` | src/components/MemeGenerator.js:78 | an image stays exactly when it was there and has a different id |
| `MemeImages.IndexOfImage` | src/components/MemeGenerator.js:80 | `find` returns the first image with that id, or none when no image has it |
| `MemeImages.RemoveAbsentImage` | src/components/MemeGenerator.js:76-89 | removing an id that no image has changes nothing |
| `MemeImages.RemoveUniqueImage` | src/components/MemeGenerator.js:76-89 | with distinct ids, removing the k-th image's id deletes exactly that position |
| `MemeImages.DistinctIdsTail` | src/components/MemeGenerator.js:63-68 | distinct ids stay distinct in the tail, and the head's id does not recur |
| `MemeImages.FindUniqueImage` | src/components/MemeGenerator.js:80 | with distinct ids, `find` of the k-th image's id is position k |
| `MemeImages.WithoutCaptionsOfMembers` | src/components/MemeGenerator.js:86 | a caption is dropped exactly when its image position equals the removed id |
| `MemeImages.CaptionCleanupKeepsAll` | src/components/MemeGenerator.js:86 | caption image positions (0 to 3) are far below any `Date.now() + Math.random()` image id, so when every position is below the removed id no caption is dropped |
| `MemeImages.Truncated` | src/components/MemeGenerator.js:489-493 | the kept prefix followed by the excess is the old list; a list within the limit is kept and a longer one is cut to the limit |
| `MemeImages.ClickToNatural` | src/components/MemeGenerator.js:100-101 | the click offset is rescaled from displayed to natural size and lands inside the picture |
| `MemeImages.ScaleWithin` | src/components/MemeGenerator.js:100-101 | the rescaling arithmetic is proportional and bounded |
| `MemeImages.ClickToNaturalExample` | src/components/MemeGenerator.js:100-101 | a click at 100 of 400 displayed pixels of an 800-pixel picture lands at 200 |
| `MemeImages.CommitCaption` | src/components/MemeGenerator.js:118-122 | the caption with the id gets the new text and leaves editing mode; all others are unchanged |
| `MemeImages.WithoutCaption` | src/components/MemeGenerator.js:124-126 | removal never lengthens the caption list |
| `MemeImages.WithoutCaptionMembers` | src/components/MemeGenerator.js:124-126 | a caption stays exactly when it was there and has a different id |
| `MemeImages.RemoveAbsentCaption` | src/components/MemeGenerator.js:124-126 | removing an id no caption has leaves the list unchanged |
| `MemeImages.DistinctCaptionIdsTail` | src/components/MemeGenerator.js:124-126 | distinct caption ids stay distinct in the tail, and the head's id does not recur |
| `MemeImages.RemoveUniqueCaption` | src/components/MemeGenerator.js:124-126 | with distinct ids, removing the k-th caption's id deletes exactly that position and keeps the order of the rest |
| `MemeComposite.DrawTexts` | src/components/MemeGenerator.js:156-251 | the method with its `forEach` loop issues the commands of the top, bottom and placed captions, in that order |
| `MemeComposite.CustomCaptionsStep` | src/components/MemeGenerator.js:221-250 | one more caption appends that caption's commands |
| `MemeComposite.CountsOne` | src/components/MemeGenerator.js:156-251 | per-command tallies of filled text, filled rectangles and encodes |
| `MemeComposite.CountsConcat` | src/components/MemeGenerator.js:156-251 | the tallies add up over concatenation |
| `MemeComposite.CountsPair` | src/components/MemeGenerator.js:156-251 | the tallies of two commands |
| `MemeComposite.CaptionCounts` | src/components/MemeGenerator.js:177-186 | an outlined caption fills its text once and rectangles only for its background |
| `MemeComposite.CustomCaptionPaints` | src/components/MemeGenerator.js:221-250 | a placed caption fills its text only when the text is non-empty and not being edited, fills a background only when the opacity is positive, and never encodes |
| `MemeComposite.CustomCaptionsPaint` | src/components/MemeGenerator.js:221-250 | the placed captions fill exactly the committed texts in order and one background per committed caption with positive opacity |
| `MemeComposite.TopCaptionPaints` | src/components/MemeGenerator.js:158-186 | a non-empty top text is filled once, with one background when the opacity is positive; an empty one draws nothing |
| `MemeComposite.BottomCaptionPaints` | src/components/MemeGenerator.js:190-218 | the same for the bottom text |
| `MemeComposite.CaptionBackgroundsWide` | src/components/MemeGenerator.js:166-210 | measured text widths are never negative, so a drawn top or bottom background is at least 20 px wide |
| `MemeComposite.CaptionsPaint` | src/components/MemeGenerator.js:156-251 | all captions together fill top, bottom and committed texts in that order and never encode |
| `MemeComposite.InRangeSlices` | src/components/MemeGenerator.js:270-323 | every load event in a slice still names one of the images |
| `MemeComposite.CellsDrawnStep` | src/components/MemeGenerator.js:270-323 | one more load event appends that cell's commands |
| `MemeComposite.SliceStep` | src/components/MemeGenerator.js:270-323 | the same for any slice of the events |
| `MemeComposite.Composite` | src/components/MemeGenerator.js:128-325 | no images gives no pass; otherwise the commands issued by the callbacks equal the frame, and the picture is finalised once exactly when every image has reported |
| `MemeComposite.FrameStep` | src/components/MemeGenerator.js:253-267 | each load callback either only adds its cell, or (when the counter reaches the image count) adds its cell, the captions and the encode |
| `MemeComposite.FrameAtCompletion` | src/components/MemeGenerator.js:253-267 | the callback that brings the counter to the total adds its cell, the captions and the encode |
| `MemeComposite.FrameAfterCompletion` | src/components/MemeGenerator.js:253-267 | a callback after completion only adds its cell |
| `MemeComposite.CellsNeverEncode` | src/components/MemeGenerator.js:270-323 | drawing cells never encodes |
| `MemeComposite.FrameEncodesOnce` | src/components/MemeGenerator.js:253-267 | the frame encodes once if every image has reported, and never before |
| `MemeComposite.FinaleEncodesOnce` | src/components/MemeGenerator.js:256-265 | the finishing step encodes exactly once |
| `MemeComposite.CompleteFrame` | src/components/MemeGenerator.js:253-267 | when exactly every image has reported, the frame is all cells, then the captions, then one encode |
| `MemeComposite.CellsInsideCanvas` | src/components/MemeGenerator.js:270-323 | every cell fill and picture draw stays inside the canvas |
| `MemeGenerator.AppendFreshKeepsLive` | src/components/MemeGenerator.js:63-68 | appending images with freshly minted preview URLs keeps every shown URL live |
| `MemeGenerator.ReleaseSuffixKeepsLive` | src/components/MemeGenerator.js:489-493 | revoking the excess images' URLs keeps the kept images' URLs live |
| `MemeGenerator.ReleaseOneKeepsLive` | src/components/MemeGenerator.js:76-89 | revoking one image's URL and removing it keeps the others live |
| `MemeGenerator.MemeSession.constructor` | src/components/MemeGenerator.js:9-26 | the initial state: no images or captions, single mode, white text on black at 0.7 opacity, no preview |
| `MemeGenerator.MemeSession.HandleImageUpload` | src/components/MemeGenerator.js:46-74 | the upload outcome and the new image list as `UploadSpec` describes, keeping every URL live |
| `MemeGenerator.MemeSession.RemoveImage` | src/components/MemeGenerator.js:76-89 | the image is filtered out; its URL is revoked when found; the captions are filtered by position |
| `MemeGenerator.MemeSession.RevokePreviews` | src/components/MemeGenerator.js:411 | each listed preview URL is revoked, in order |
| `MemeGenerator.MemeSession.SelectMode` | src/components/MemeGenerator.js:486-494 | the mode changes, images past its maximum are dropped and their URLs revoked, and captions are kept |
| `MemeGenerator.MemeSession.ResetForm` | src/components/MemeGenerator.js:410-421 | every preview URL is revoked and images, captions, texts, title and preview are cleared |
| `MemeGenerator.MemeSession.SetActiveImage` | src/components/MemeGenerator.js:533 | only the active index changes |
| `MemeGenerator.MemeSession.ToggleTextEditMode` | src/components/MemeGenerator.js:616 | only caption-placing mode flips |
| `MemeGenerator.MemeSession.SetTopText` | src/components/MemeGenerator.js:327-329 | only the top text changes |
| `MemeGenerator.MemeSession.SetBottomText` | src/components/MemeGenerator.js:331-333 | only the bottom text changes |
| `MemeGenerator.MemeSession.SetTitle` | src/components/MemeGenerator.js:595 | only the title changes |
| `MemeGenerator.MemeSession.SetCaptionStyle` | src/components/MemeGenerator.js:561-582 | only the text colour, background colour and opacity change |
| `MemeGenerator.MemeSession.SetEditingText` | src/components/MemeGenerator.js:642 | only the editing buffer changes |
| `MemeGenerator.MemeSession.HandleCanvasClick` | src/components/MemeGenerator.js:91-116 | outside caption mode, with no images or with no preview shown, nothing changes; otherwise a "Nouveau texte" caption in editing mode is appended at the click's natural-size position |
| `MemeGenerator.MemeSession.UpdateCustomText` | src/components/MemeGenerator.js:118-122 | the captions change as `CommitCaption` says |
| `MemeGenerator.MemeSession.CommitEditingText` | src/components/MemeGenerator.js:643-651 | the buffer is committed to the caption and then cleared |
| `MemeGenerator.MemeSession.RemoveCustomText` | src/components/MemeGenerator.js:661 | the caption is filtered out |
| `MemeGenerator.MemeSession.GenerateMemeImage` | src/components/MemeGenerator.js:128-325 | no pass for no images; otherwise the frame of the current scene, and the preview is replaced only when the picture is finalised and a blob URL is produced |
| `MemeGenerator.MemeSession.SavePrecheck` | src/components/MemeGenerator.js:345-358 | saving stops for a blank title, then for no images, and proceeds otherwise, each outcome holding exactly when its condition does |
| `EditorElements.AppendFreshKeepsValid` | src/components/InteractifGen.js:48 | appending a well-formed element with a fresh id keeps ids distinct and elements well-formed |
| `EditorElements.SameIdsKeepValid` | src/components/InteractifGen.js:112-179 | a pointwise update that keeps ids and well-formedness keeps the list valid |
| `EditorElements.NewTextPlacement` | src/components/InteractifGen.js:33-51 | a new text element is 200×50, centred horizontally, with its top edge on the middle line, so it is not centred vertically |
| `EditorElements.ImageSize` | src/components/InteractifGen.js:61-71 | an inserted image is positive in both sides, its longer side is 200 and it keeps the picture's ratio |
| `EditorElements.AspectFacts` | src/components/InteractifGen.js:63-71 | the division steps behind the 200-pixel fit |
| `EditorElements.NewImagePlacement` | src/components/InteractifGen.js:73-82 | a new image element is centred on the canvas and lies within it |
| `EditorElements.ThinImageBelowMinimum` | src/components/InteractifGen.js:61-71 | a 1000×50 picture is inserted at 200×10, below the 20 px minimum that resizing enforces |
| `EditorElements.UpdateWhere` | src/components/InteractifGen.js:112-120 | `map` applies the change to the elements with the id and leaves the others alone |
| `EditorElements.RotatedInRange` | src/components/InteractifGen.js:164-170 | a rotation stays in 0..359, advances 15° with wrap-around, and nothing else about the element changes |
| `EditorElements.RotatedTimesValue` | src/components/InteractifGen.js:167 | n presses give a rotation of (r + 15n) mod 360 |
| `EditorElements.ModShift` | src/components/InteractifGen.js:167 | reducing modulo 360 first does not change the sum's residue |
| `EditorElements.ModAddTurns` | src/components/InteractifGen.js:167 | whole turns do not change the residue |
| `EditorElements.FullTurn` | src/components/InteractifGen.js:164-170 | any multiple of 24 presses brings an element back to its starting rotation |
| `EditorElements.ResizedAtLeastMinimum` | src/components/InteractifGen.js:173-179 | both sides are at least 20, requested sizes of 20 or more are taken, smaller ones become 20, and nothing else changes |
| `EditorElements.DragStaysOnCanvas` | src/components/InteractifGen.js:112-120 | a dragged element never goes left of or above the canvas, fits when it is no wider or taller than the canvas, lands exactly where aimed when that fits, and nothing else changes |
| `EditorElements.WideElementOverflows` | src/components/InteractifGen.js:116 | an element wider than the canvas is pinned at x = 0 and still overflows on the right |
| `EditorElements.NumericXUnclamped` | src/components/InteractifGen.js:447-450 | typing -40 as X moves the element off the canvas; nothing else changes |
| `EditorElements.NumericYUnclamped` | src/components/InteractifGen.js:458-461 | typing 900 as Y moves the element below the canvas; nothing else changes |
| `EditorElements.NumericNotANumber` | src/components/InteractifGen.js:447-461 | typing something that is not a number sets the position to 0 |
| `EditorElements.RotateElement` | src/components/InteractifGen.js:164-170 | only the elements with the id are rotated |
| `EditorElements.ResizeElement` | src/components/InteractifGen.js:173-179 | only the elements with the id are resized |
| `EditorElements.DragElement` | src/components/InteractifGen.js:112-120 | only the element being dragged moves |
| `EditorElements.TypeX` | src/components/InteractifGen.js:447-450 | only the selected element's X is set |
| `EditorElements.TypeY` | src/components/InteractifGen.js:458-461 | only the selected element's Y is set |
| `EditorElements.GrabWithoutMoving` | src/components/InteractifGen.js:91-121 | pressing and moving without displacement leaves an on-canvas element where it was |
| `EditorElements.RotateKeepsValid` | src/components/InteractifGen.js:164-170 | rotating keeps ids distinct and elements well-formed |
| `EditorElements.ResizeKeepsValid` | src/components/InteractifGen.js:173-179 | resizing keeps the list valid |
| `EditorElements.DragKeepsValid` | src/components/InteractifGen.js:112-120 | dragging keeps the list valid |
| `EditorElements.TypedPositionKeepsValid` | src/components/InteractifGen.js:447-461 | typing a position keeps the list valid |
| `EditorElements.FindElement` | src/components/InteractifGen.js:142 | `find` returns the first element with the id, or none when the id is absent |
| `EditorElements.DuplicateSpec` | src/components/InteractifGen.js:141-153 | duplicating an absent id changes nothing; otherwise the old list is kept and one copy of the first element with the id, differing only in its fresh id and a (20, 20) offset, is appended |
| `EditorElements.WithoutElement` | src/components/InteractifGen.js:157 | deleting never lengthens the list |
| `EditorElements.WithoutElementMembers` | src/components/InteractifGen.js:157 | an element stays exactly when it was there and has a different id |
| `EditorElements.WithoutAbsentElement` | src/components/InteractifGen.js:157 | deleting an absent id changes nothing |
| `EditorElements.DeleteUnique` | src/components/InteractifGen.js:156-161 | with distinct ids, deleting the k-th element's id removes exactly that position |
| `EditorElements.DistinctTail` | src/components/InteractifGen.js:156-161 | distinct ids stay distinct in the tail, and the head's id does not recur |
| `EditorElements.WithoutElementPreserves` | src/components/InteractifGen.js:156-161 | deleting keeps the list valid |
| `EditorElements.ConsKeepsValid` | src/components/InteractifGen.js:156-161 | prefixing a well-formed element with a fresh id keeps the list valid |
| `EditorElements.WalkStep` | src/components/InteractifGen.js:190-218 | one more element appends its commands |
| `EditorElements.PaintedConcat` | src/components/InteractifGen.js:190-218 | the painting commands of a concatenation are those of the parts |
| `EditorElements.MarkersConcat` | src/components/InteractifGen.js:190-218 | save, restore and rotate tallies add up over concatenation |
| `EditorElements.PaintedOne` | src/components/InteractifGen.js:201-215 | a command is painting exactly when it fills text or draws an image |
| `EditorElements.MarkersOne` | src/components/InteractifGen.js:191-217 | a single command's marker tally |
| `EditorElements.ElementDrawsParts` | src/components/InteractifGen.js:191-217 | one element is drawn as save, optional rotation, paint, restore |
| `EditorElements.ElementPaintsOnce` | src/components/InteractifGen.js:201-215 | each element paints exactly once |
| `EditorElements.ElementMarkers` | src/components/InteractifGen.js:191-217 | each element saves and restores once and rotates only when its rotation is non-zero |
| `EditorElements.WalkPaintsInOrder` | src/components/InteractifGen.js:190-218 | the walk paints every element once, in list order, so later elements are drawn on top |
| `EditorElements.WalkMarkers` | src/components/InteractifGen.js:190-218 | the saves and restores balance, one pair per element, and there is one rotation per turned element |
| `EditorElements.RenderFrame` | src/components/InteractifGen.js:180-223 | a completed pass starts with the white fill, ends with the encode, and paints the elements in order |
| `InteractifGen.Editor.constructor` | src/components/InteractifGen.js:9-22 | the initial state: no elements, no selection, not dragging, empty input, 32 px bold black text, empty title |
| `InteractifGen.Editor.SetTitle` | src/components/InteractifGen.js:363 | only the title changes |
| `InteractifGen.Editor.ToggleTextInput` | src/components/InteractifGen.js:368 | only the text form's visibility flips |
| `InteractifGen.Editor.SetTextInput` | src/components/InteractifGen.js:380 | only the text input changes |
| `InteractifGen.Editor.SetFontSize` | src/components/InteractifGen.js:393 | only the style's font size changes |
| `InteractifGen.Editor.SetTextColor` | src/components/InteractifGen.js:404 | only the style's colour changes |
| `InteractifGen.Editor.AddText` | src/components/InteractifGen.js:33-51 | a blank input changes nothing; otherwise the text element is appended and the form is cleared and hidden, keeping the list valid |
| `InteractifGen.Editor.InsertImage` | src/components/InteractifGen.js:54-89 | the fitted image element is appended, keeping the list valid |
| `InteractifGen.Editor.MouseDown` | src/components/InteractifGen.js:91-103 | the element is selected, dragging starts, and the offset is cursor minus position |
| `InteractifGen.Editor.MouseMove` | src/components/InteractifGen.js:105-121 | nothing moves unless dragging with a truthy selection; otherwise the selected element is dragged to cursor minus offset |
| `InteractifGen.Editor.MouseUp` | src/components/InteractifGen.js:123-126 | dragging stops and the offset resets |
| `InteractifGen.Editor.Duplicate` | src/components/InteractifGen.js:141-153 | the elements change as `DuplicateSpec` describes, keeping the list valid |
| `InteractifGen.Editor.Delete` | src/components/InteractifGen.js:156-161 | the element is filtered out and the selection is cleared when it was that element |
| `InteractifGen.Editor.Rotate` | src/components/InteractifGen.js:164-170 | the elements are rotated as `RotateElement` says, keeping the list valid |
| `InteractifGen.Editor.Resize` | src/components/InteractifGen.js:173-179 | the elements are resized as `ResizeElement` says, keeping the list valid |
| `InteractifGen.Editor.ResizeByHandle` | src/components/InteractifGen.js:633-653 | the handle resizes to start size plus cursor travel |
| `InteractifGen.Editor.EditX` | src/components/InteractifGen.js:447-450 | without a selection nothing changes; otherwise the selected element's X is parsed from the field |
| `InteractifGen.Editor.EditY` | src/components/InteractifGen.js:458-461 | the same for Y |
| `InteractifGen.Editor.EditWidth` | src/components/InteractifGen.js:473-474 | the selected element is resized to the parsed width (20 when not a number or zero), keeping its height |
| `InteractifGen.Editor.EditHeight` | src/components/InteractifGen.js:482-483 | the selected element is resized to the parsed height, keeping its width |
| `InteractifGen.Editor.SelectFromList` | src/components/InteractifGen.js:521 | the listed element becomes the selection |
| `InteractifGen.Editor.ClickCanvas` | src/components/InteractifGen.js:584-587 | a click on the background clears the selection; any other click keeps it |
| `InteractifGen.Editor.GenerateCanvasBlob` | src/components/InteractifGen.js:180-223 | the pass fails, with nothing encoded, exactly when some image element's URL does not load (its `drawImage` throws); otherwise the method's `for` loop issues exactly the commands of `Render` on the current elements |
| `InteractifGen.Editor.SaveCheck` | src/components/InteractifGen.js:267-276 | saving stops for a blank title, then for no elements, and proceeds otherwise, each outcome holding exactly when its condition does |

## Left out

- Network and storage: the uploads to the back end and the saves through it (MemeGenerator.js:360-377, InteractifGen.js:278-332) are left out. They are foreign calls.
- Download, share and clipboard (MemeGenerator.js:389-408 and 423-445, InteractifGen.js:225-264) are left out. They are browser I/O.
- The `isUploading` and `isSaving` flags, alerts and spinners are left out. They only drive the UI.
- Timing and event wiring: the debounced preview refresh (MemeGenerator.js:335-343) is left out, because it is timers. Callers invoke `GenerateMemeImage` directly.
- The editor's document listeners (InteractifGen.js:128-138) are left out. The model calls `MouseMove` and `MouseUp` directly.
- Pixels are not modelled: the canvas is a recorded command list and the PNG encoding is the symbolic `Encode`. Image decoding is a `decoded` parameter, and font metrics are a `Measure` parameter whose only promise is that widths are never negative.
- The order of asynchronous image loads is a `LoadEvent` sequence given by the caller, not a scheduler.
- Floating point is modelled as exact reals, so rounding in `/`, `Math.floor` and `Math.round` of displayed values is not captured. Where the source floors, the model uses `Floor`.
- `hexToRgba` produces a structured `Rgba` value instead of its formatted `rgba(…)` string, since only the channel values matter.
- Rotation is kept in integer degrees. The conversion to radians (`Math.PI / 180`) is left out.
- Identifiers from `Date.now() + Math.random()` are not modelled. Callers pass a fresh id (or minted preview URLs) that satisfies a freshness precondition instead.
- InteractifGen's image upload does nothing with no file or when the picture fails to decode. `InsertImage` models only a decoded picture, with positive natural size.
- MemeGenerator's `handleCanvasClick` also reads the picture's natural size from the DOM. The model takes it as a parameter.
- Other components are not part of this model:
  - the JSX layout;
  - `Gallery.js` and `App.js`;
  - the `imageUrl`, `cloudinaryId` and `showCustomEditor` state;
  - `handleCustomEditorSave`.
- The font-size slider is an `int` from 12 to 72 (`SetFontSize` requires that range), as the range input guarantees.
- The previous preview URL is not revoked when `GenerateMemeImage` replaces it. The source does not revoke it either, so the model does not track it among the revoked URLs.
- Behaviour kept as the code does it, where a reader might expect otherwise:
  - an inserted thin image can be under the 20 px minimum (`ThinImageBelowMinimum`);
  - the drag clamp cannot keep an element wider than the canvas inside it (`WideElementOverflows`);
  - changing mode keeps the placed captions;
  - contain-fit also enlarges small pictures (`ContainFitUpscales`);
  - a click places a caption only while a preview is shown;
  - image removal compares a caption's image position with the image's id; the positions are far below any image id, so it drops none (`CaptionCleanupKeepsAll`);
  - typed X/Y values are not clamped (`NumericXUnclamped`, `NumericYUnclamped`);
  - new text sits with its top edge on the middle line (`NewTextPlacement`);
  - the horizontal and vertical split happens only with exactly two images (`NoSplitBelowTwo`);
  - caption ids are `Date.now()` and can repeat: `HandleCanvasClick` does not keep them distinct, so `RemoveCustomText` drops every caption sharing the id (`WithoutCaptionMembers`), and `RemoveUniqueCaption` applies only when the ids happen to be distinct;
  - in the editor, an image that fails to load makes `drawImage` throw, so the whole render pass fails and nothing is encoded (`GenerateCanvasBlob`).
