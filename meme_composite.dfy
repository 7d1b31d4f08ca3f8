/**
 * One rasterisation pass of the layout compositor (`generateMemeImage`):
 * every image is decoded independently; each decode that succeeds paints its
 * cell, each load or error callback bumps a counter, and when the counter
 * reaches the number of images the captions are painted and the canvas is
 * encoded. The completion order of the decodes is an input.
 */
module MemeComposite {
  import opened Basics
  import opened Canvas
  import opened MemeLayout
  import opened MemeImages

  /** The caption colours the form holds: text colour, background colour and background opacity. */
  datatype CaptionStyle = CaptionStyle(textColor: string, bgColor: string, bgOpacity: real)

  /** What one pass reads from the compositor's state. */
  datatype Scene = Scene(
    mode: DisplayMode, images: seq<SourceImage>, topText: string, bottomText: string,
    customTexts: seq<CustomText>, style: CaptionStyle)

  /** How the decode of image `index` ended: `onload` with its dimensions, or `onerror`. */
  datatype LoadEvent = Loaded(index: nat, size: Dims) | Failed(index: nat)

  /** The result of a pass that started: the draw commands issued and how many times it finalised. */
  datatype Pass = Pass(draws: seq<Draw>, finalisations: nat)

  // ----- captions (`drawTextsOnCanvas`) ------------------------------------

  /** A caption's text: a black outline stroke, then the fill, both at the anchor. */
  function OutlinedText(text: string, x: real, y: real, font: Font, baseline: Baseline,
                        lineWidth: int, color: string): seq<Draw>
  {
    [StrokeText(text, x, y, font, AlignCenter, baseline, lineWidth),
     FillText(text, x, y, font, AlignCenter, baseline, Css(color))]
  }

  /** The top caption: drawn only when its text is non-empty, its background only when the opacity is positive. */
  function TopCaption(s: Scene, measure: Measure): seq<Draw> {
    var W := CanvasWidth(s.mode);
    var font := CaptionFont(GlobalFontSize(W));
    if s.topText == [] then []
    else
      (if s.style.bgOpacity > 0.0
       then [FillRect(TopBackground(W, measure(s.topText, font)), HexRgba(s.style.bgColor, s.style.bgOpacity))]
       else [])
      + OutlinedText(s.topText, W as real / 2.0, TopTextY, font, BaselineTop, 3, s.style.textColor)
  }

  /** The bottom caption, anchored 60 pixels above the bottom edge with its background above the anchor. */
  function BottomCaption(s: Scene, measure: Measure): seq<Draw> {
    var W := CanvasWidth(s.mode);
    var H := CanvasHeight(s.mode);
    var font := CaptionFont(GlobalFontSize(W));
    if s.bottomText == [] then []
    else
      (if s.style.bgOpacity > 0.0
       then [FillRect(BottomBackground(W, H, measure(s.bottomText, font)), HexRgba(s.style.bgColor, s.style.bgOpacity))]
       else [])
      + OutlinedText(s.bottomText, W as real / 2.0, BottomTextY(H), font, BaselineBottom, 3, s.style.textColor)
  }

  /** A custom caption is painted when its text is non-empty and it is not being edited. */
  predicate Committed(t: CustomText) {
    t.text != [] && !t.isEditing
  }

  /** One custom caption, centred both ways on its anchor; its background alpha is `floor(opacity * 255)`. */
  function CustomCaption(t: CustomText, canvasWidth: nat, measure: Measure): seq<Draw> {
    var fs := CustomFontSize(canvasWidth);
    var font := CaptionFont(fs);
    if !Committed(t) then []
    else
      (if t.bgOpacity > 0.0
       then [FillRect(CustomBackground(t.x, t.y, measure(t.text, font), fs),
                      HexAlpha(t.bgColor, (t.bgOpacity * 255.0).Floor))]
       else [])
      + OutlinedText(t.text, t.x, t.y, font, BaselineMiddle, 2, t.color)
  }

  /** `customTexts.forEach(...)`: the custom captions in list order. */
  function CustomCaptions(ts: seq<CustomText>, canvasWidth: nat, measure: Measure): seq<Draw> {
    if ts == [] then []
    else CustomCaptions(ts[..|ts| - 1], canvasWidth, measure) + CustomCaption(ts[|ts| - 1], canvasWidth, measure)
  }

  /** Everything `drawTextsOnCanvas` paints. */
  function Captions(s: Scene, measure: Measure): seq<Draw> {
    TopCaption(s, measure) + BottomCaption(s, measure) + CustomCaptions(s.customTexts, CanvasWidth(s.mode), measure)
  }

  /** `drawTextsOnCanvas`: the two global captions, then a walk over the custom captions. */
  method DrawTexts(s: Scene, measure: Measure) returns (draws: seq<Draw>)
    ensures draws == Captions(s, measure)
  {
    var globals := TopCaption(s, measure) + BottomCaption(s, measure);
    draws := globals;
    var W := CanvasWidth(s.mode);
    var fontSize := CustomFontSize(W);
    assert s.customTexts[..0] == [];
    for i := 0 to |s.customTexts|
      invariant draws == globals + CustomCaptions(s.customTexts[..i], W, measure)
    {
      var textObj := s.customTexts[i];
      var painted: seq<Draw> := [];
      if textObj.text != [] && !textObj.isEditing {
        var font := CaptionFont(fontSize);
        var background: seq<Draw> := [];
        if textObj.bgOpacity > 0.0 {
          var textWidth := measure(textObj.text, font);
          background := [FillRect(CustomBackground(textObj.x, textObj.y, textWidth, fontSize),
                                  HexAlpha(textObj.bgColor, (textObj.bgOpacity * 255.0).Floor))];
        }
        var outlined := [StrokeText(textObj.text, textObj.x, textObj.y, font, AlignCenter, BaselineMiddle, 2),
                         FillText(textObj.text, textObj.x, textObj.y, font, AlignCenter, BaselineMiddle, Css(textObj.color))];
        assert outlined == OutlinedText(textObj.text, textObj.x, textObj.y, font, BaselineMiddle, 2, textObj.color);
        painted := background + outlined;
      }
      assert painted == CustomCaption(textObj, W, measure);
      ghost var before := CustomCaptions(s.customTexts[..i], W, measure);
      CustomCaptionsStep(s.customTexts, i, W, measure);
      AppendAssoc(globals, before, painted);
      draws := draws + painted;
    }
    assert s.customTexts[..|s.customTexts|] == s.customTexts;
  }

  lemma CustomCaptionsStep(ts: seq<CustomText>, i: nat, canvasWidth: nat, measure: Measure)
    requires i < |ts|
    ensures CustomCaptions(ts[..i + 1], canvasWidth, measure)
            == CustomCaptions(ts[..i], canvasWidth, measure) + CustomCaption(ts[i], canvasWidth, measure)
  {
    assert ts[..i + 1][..i] == ts[..i];
  }

  // ----- what the draw commands say ----------------------------------------

  /** The text a command fills, if it fills one. */
  function TextOf(d: Draw): seq<string> {
    if d.FillText? then [d.text] else []
  }

  /** One when the command fills a rectangle. */
  function RectOf(d: Draw): nat {
    if d.FillRect? then 1 else 0
  }

  /** One when the command encodes the canvas. */
  function EncodeOf(d: Draw): nat {
    if d.Encode? then 1 else 0
  }

  /** The texts filled, in order. */
  function FilledTexts(cmds: seq<Draw>): seq<string> {
    if cmds == [] then [] else FilledTexts(cmds[..|cmds| - 1]) + TextOf(cmds[|cmds| - 1])
  }

  /** The number of rectangles filled. */
  function FilledRects(cmds: seq<Draw>): nat {
    if cmds == [] then 0 else FilledRects(cmds[..|cmds| - 1]) + RectOf(cmds[|cmds| - 1])
  }

  /** The number of times the canvas is encoded. */
  function Encodes(cmds: seq<Draw>): nat {
    if cmds == [] then 0 else Encodes(cmds[..|cmds| - 1]) + EncodeOf(cmds[|cmds| - 1])
  }

  lemma CountsOne(d: Draw)
    ensures FilledTexts([d]) == TextOf(d) && FilledRects([d]) == RectOf(d) && Encodes([d]) == EncodeOf(d)
  {
    assert [d][..0] == [];
  }

  lemma {:induction false} CountsConcat(a: seq<Draw>, b: seq<Draw>)
    ensures FilledTexts(a + b) == FilledTexts(a) + FilledTexts(b)
    ensures FilledRects(a + b) == FilledRects(a) + FilledRects(b)
    ensures Encodes(a + b) == Encodes(a) + Encodes(b)
  {
    if b == [] {
      assert a + b == a;
    } else {
      CountsConcat(a, b[..|b| - 1]);
      assert (a + b)[..|a + b| - 1] == a + b[..|b| - 1];
    }
  }

  lemma CountsPair(d: Draw, e: Draw)
    ensures FilledTexts([d, e]) == TextOf(d) + TextOf(e)
    ensures FilledRects([d, e]) == RectOf(d) + RectOf(e)
    ensures Encodes([d, e]) == EncodeOf(d) + EncodeOf(e)
  {
    CountsOne(d);
    CountsOne(e);
    CountsConcat([d], [e]);
    assert [d] + [e] == [d, e];
  }

  /**
   * A caption made of an optional background rectangle and an outlined text
   * fills that text once, fills one rectangle exactly when it has a background,
   * and never encodes.
   */
  lemma CaptionCounts(bg: seq<Draw>, text: string, x: real, y: real, font: Font, baseline: Baseline,
                      lineWidth: int, color: string)
    requires |bg| <= 1 && (bg != [] ==> bg[0].FillRect?)
    ensures var c := bg + OutlinedText(text, x, y, font, baseline, lineWidth, color);
      FilledTexts(c) == [text] && FilledRects(c) == |bg| && Encodes(c) == 0
  {
    var o := OutlinedText(text, x, y, font, baseline, lineWidth, color);
    CountsPair(o[0], o[1]);
    if bg != [] {
      CountsOne(bg[0]);
      assert [bg[0]] == bg;
    }
    CountsConcat(bg, o);
  }

  /** The committed custom captions, in order. */
  function CommittedTexts(ts: seq<CustomText>): seq<string> {
    if ts == [] then []
    else CommittedTexts(ts[..|ts| - 1]) + (if Committed(ts[|ts| - 1]) then [ts[|ts| - 1].text] else [])
  }

  /** The number of committed custom captions with a visible background. */
  function CommittedBackgrounds(ts: seq<CustomText>): nat {
    if ts == [] then 0
    else CommittedBackgrounds(ts[..|ts| - 1]) + (if Committed(ts[|ts| - 1]) && ts[|ts| - 1].bgOpacity > 0.0 then 1 else 0)
  }

  /**
   * The custom captions fill exactly the texts of the committed captions, in
   * list order (a caption being edited or with empty text is skipped), with
   * one background for each of them whose opacity is positive, and never encode.
   */
  lemma {:induction false} CustomCaptionsPaint(ts: seq<CustomText>, canvasWidth: nat, measure: Measure)
    ensures FilledTexts(CustomCaptions(ts, canvasWidth, measure)) == CommittedTexts(ts)
    ensures FilledRects(CustomCaptions(ts, canvasWidth, measure)) == CommittedBackgrounds(ts)
    ensures Encodes(CustomCaptions(ts, canvasWidth, measure)) == 0
  {
    if ts != [] {
      var init, t := ts[..|ts| - 1], ts[|ts| - 1];
      ghost var before, one := CustomCaptions(init, canvasWidth, measure), CustomCaption(t, canvasWidth, measure);
      assert CustomCaptions(ts, canvasWidth, measure) == before + one;
      CustomCaptionsPaint(init, canvasWidth, measure);
      CustomCaptionPaints(t, canvasWidth, measure);
      CountsConcat(before, one);
    }
  }

  /** One custom caption fills its text once when committed, with a background when its opacity is positive. */
  lemma CustomCaptionPaints(t: CustomText, canvasWidth: nat, measure: Measure)
    ensures FilledTexts(CustomCaption(t, canvasWidth, measure)) == (if Committed(t) then [t.text] else [])
    ensures FilledRects(CustomCaption(t, canvasWidth, measure)) == (if Committed(t) && t.bgOpacity > 0.0 then 1 else 0)
    ensures Encodes(CustomCaption(t, canvasWidth, measure)) == 0
  {
    if Committed(t) {
      var fs := CustomFontSize(canvasWidth);
      var font := CaptionFont(fs);
      var bg := if t.bgOpacity > 0.0
        then [FillRect(CustomBackground(t.x, t.y, measure(t.text, font), fs), HexAlpha(t.bgColor, (t.bgOpacity * 255.0).Floor))]
        else [];
      assert CustomCaption(t, canvasWidth, measure) == bg + OutlinedText(t.text, t.x, t.y, font, BaselineMiddle, 2, t.color);
      CaptionCounts(bg, t.text, t.x, t.y, font, BaselineMiddle, 2, t.color);
    }
  }

  /** The top caption fills its text once when it is non-empty, with one background when the opacity is positive. */
  lemma TopCaptionPaints(s: Scene, measure: Measure)
    ensures FilledTexts(TopCaption(s, measure)) == (if s.topText != [] then [s.topText] else [])
    ensures FilledRects(TopCaption(s, measure)) == (if s.topText != [] && s.style.bgOpacity > 0.0 then 1 else 0)
    ensures Encodes(TopCaption(s, measure)) == 0
  {
    var W := CanvasWidth(s.mode);
    var font := CaptionFont(GlobalFontSize(W));
    if s.topText != [] {
      var bg := if s.style.bgOpacity > 0.0
        then [FillRect(TopBackground(W, measure(s.topText, font)), HexRgba(s.style.bgColor, s.style.bgOpacity))]
        else [];
      assert TopCaption(s, measure) == bg + OutlinedText(s.topText, W as real / 2.0, TopTextY, font, BaselineTop, 3, s.style.textColor);
      CaptionCounts(bg, s.topText, W as real / 2.0, TopTextY, font, BaselineTop, 3, s.style.textColor);
    }
  }

  /** The bottom caption fills its text once when it is non-empty, with one background when the opacity is positive. */
  lemma BottomCaptionPaints(s: Scene, measure: Measure)
    ensures FilledTexts(BottomCaption(s, measure)) == (if s.bottomText != [] then [s.bottomText] else [])
    ensures FilledRects(BottomCaption(s, measure)) == (if s.bottomText != [] && s.style.bgOpacity > 0.0 then 1 else 0)
    ensures Encodes(BottomCaption(s, measure)) == 0
  {
    var W := CanvasWidth(s.mode);
    var H := CanvasHeight(s.mode);
    var font := CaptionFont(GlobalFontSize(W));
    if s.bottomText != [] {
      var bg := if s.style.bgOpacity > 0.0
        then [FillRect(BottomBackground(W, H, measure(s.bottomText, font)), HexRgba(s.style.bgColor, s.style.bgOpacity))]
        else [];
      assert BottomCaption(s, measure) == bg + OutlinedText(s.bottomText, W as real / 2.0, BottomTextY(H), font, BaselineBottom, 3, s.style.textColor);
      CaptionCounts(bg, s.bottomText, W as real / 2.0, BottomTextY(H), font, BaselineBottom, 3, s.style.textColor);
    }
  }

  /** Since measured widths are never negative, a drawn top or bottom background is at least 20 pixels wide. */
  lemma CaptionBackgroundsWide(s: Scene, measure: Measure)
    ensures s.topText != [] && s.style.bgOpacity > 0.0 ==>
      TopCaption(s, measure)[0].FillRect? && TopCaption(s, measure)[0].rect.w >= 20.0
    ensures s.bottomText != [] && s.style.bgOpacity > 0.0 ==>
      BottomCaption(s, measure)[0].FillRect? && BottomCaption(s, measure)[0].rect.w >= 20.0
  {
    var W := CanvasWidth(s.mode);
    var font := CaptionFont(GlobalFontSize(W));
    BackgroundSize(W, CanvasHeight(s.mode), measure(s.topText, font));
    BackgroundSize(W, CanvasHeight(s.mode), measure(s.bottomText, font));
  }

  /** All captions together: top, bottom, then the committed custom captions; the captions never encode. */
  lemma CaptionsPaint(s: Scene, measure: Measure)
    ensures FilledTexts(Captions(s, measure))
            == (if s.topText != [] then [s.topText] else []) + (if s.bottomText != [] then [s.bottomText] else [])
               + CommittedTexts(s.customTexts)
    ensures Encodes(Captions(s, measure)) == 0
  {
    var top, bottom := TopCaption(s, measure), BottomCaption(s, measure);
    var custom := CustomCaptions(s.customTexts, CanvasWidth(s.mode), measure);
    TopCaptionPaints(s, measure);
    BottomCaptionPaints(s, measure);
    CustomCaptionsPaint(s.customTexts, CanvasWidth(s.mode), measure);
    CountsConcat(top, bottom);
    CountsConcat(top + bottom, custom);
  }

  // ----- image cells and the load counter ----------------------------------

  /** Every event names one of the selected images. */
  predicate InRange(s: Scene, events: seq<LoadEvent>) {
    forall k :: 0 <= k < |events| ==> events[k].index < |s.images|
  }

  /** What one decode paints: on load a white cell and the fitted image; on error nothing. */
  function CellDraws(s: Scene, e: LoadEvent): seq<Draw>
    requires e.index < |s.images|
  {
    match e
    case Failed(_) => []
    case Loaded(i, size) =>
      var cell := CellRect(s.mode, |s.images|, i);
      [FillRect(cell, Css("white")), DrawImage(s.images[i].preview, ContainFit(size, cell))]
  }

  /** The cells painted by a sequence of decodes, in completion order. */
  function CellsDrawn(s: Scene, events: seq<LoadEvent>): seq<Draw>
    requires InRange(s, events)
  {
    if events == [] then []
    else CellsDrawn(s, events[..|events| - 1]) + CellDraws(s, events[|events| - 1])
  }

  /** What runs once the counter reaches the number of images: the captions, then the encoding. */
  function Finale(s: Scene, measure: Measure): seq<Draw> {
    Captions(s, measure) + [Encode]
  }

  /**
   * The commands of a pass after the decodes `events` have completed, in that
   * order: the finale comes right after the `|images|`-th completion.
   */
  function Frame(s: Scene, events: seq<LoadEvent>, measure: Measure): seq<Draw>
    requires InRange(s, events)
  {
    var n := |s.images|;
    if |events| < n then CellsDrawn(s, events)
    else CellsDrawn(s, events[..n]) + Finale(s, measure) + CellsDrawn(s, events[n..])
  }

  lemma InRangeSlices(s: Scene, events: seq<LoadEvent>, a: nat, b: nat)
    requires InRange(s, events) && a <= b <= |events|
    ensures InRange(s, events[..b]) && InRange(s, events[a..b]) && InRange(s, events[a..])
  {
    assert forall k :: 0 <= k < b ==> events[..b][k] == events[k];
    assert forall k :: 0 <= k < b - a ==> events[a..b][k] == events[a + k];
    assert forall k :: 0 <= k < |events| - a ==> events[a..][k] == events[a + k];
  }

  /** One more completion appends its cell to the cells drawn, both from the start and from the `n`-th completion on. */
  lemma CellsDrawnStep(s: Scene, events: seq<LoadEvent>, k: nat, n: nat)
    requires InRange(s, events) && k < |events|
    ensures InRange(s, events[..k]) && InRange(s, events[..k + 1])
    ensures CellsDrawn(s, events[..k + 1]) == CellsDrawn(s, events[..k]) + CellDraws(s, events[k])
    ensures n <= k ==> (InRange(s, events[n..k]) && InRange(s, events[n..k + 1])
                        && CellsDrawn(s, events[n..k + 1]) == CellsDrawn(s, events[n..k]) + CellDraws(s, events[k]))
    ensures InRange(s, events[k + 1..k + 1]) && CellsDrawn(s, events[k + 1..k + 1]) == []
  {
    SliceStep(s, events, 0, k);
    assert events[0..k] == events[..k] && events[0..k + 1] == events[..k + 1];
    if n <= k {
      SliceStep(s, events, n, k);
    }
    assert events[k + 1..k + 1] == [];
  }

  lemma SliceStep(s: Scene, events: seq<LoadEvent>, a: nat, k: nat)
    requires InRange(s, events) && a <= k < |events|
    ensures InRange(s, events[a..k]) && InRange(s, events[a..k + 1])
    ensures CellsDrawn(s, events[a..k + 1]) == CellsDrawn(s, events[a..k]) + CellDraws(s, events[k])
  {
    InRangeSlices(s, events, a, k);
    InRangeSlices(s, events, a, k + 1);
    ghost var longer := events[a..k + 1];
    assert longer[..|longer| - 1] == events[a..k];
    assert longer[|longer| - 1] == events[k];
  }

  /**
   * `generateMemeImage`: no pass at all without images; otherwise each event
   * paints its cell when it is a load, then bumps `imagesLoaded`, and the pass
   * finalises exactly when the counter equals `totalImages`.
   */
  method Composite(s: Scene, events: seq<LoadEvent>, measure: Measure) returns (r: Option<Pass>)
    requires InRange(s, events)
    ensures r.None? <==> s.images == []
    ensures r.Some? ==> r.value.draws == Frame(s, events, measure)
    ensures r.Some? ==> r.value.finalisations == (if |events| >= |s.images| then 1 else 0)
  {
    if |s.images| == 0 {
      return None;
    }
    var totalImages := |s.images|;
    var imagesLoaded := 0;
    var draws: seq<Draw> := [];
    var finalisations := 0;
    assert events[..0] == [];
    for k := 0 to |events|
      invariant imagesLoaded == k
      invariant InRange(s, events[..k])
      invariant draws == Frame(s, events[..k], measure)
      invariant finalisations == (if k >= totalImages then 1 else 0)
    {
      var e := events[k];
      var painted: seq<Draw> := [];
      if e.Loaded? {
        var cell := CellRect(s.mode, totalImages, e.index);
        painted := [FillRect(cell, Css("white")), DrawImage(s.images[e.index].preview, ContainFit(e.size, cell))];
      }
      assert painted == CellDraws(s, e);
      FrameStep(s, events, k, measure);
      draws := draws + painted;
      imagesLoaded := imagesLoaded + 1;
      if imagesLoaded == totalImages {
        var texts := DrawTexts(s, measure);
        draws := draws + texts + [Encode];
        finalisations := finalisations + 1;
      }
    }
    assert events[..|events|] == events;
    return Some(Pass(draws, finalisations));
  }

  /** One more completion appends its cell, followed by the finale when it is the `|images|`-th. */
  lemma FrameStep(s: Scene, events: seq<LoadEvent>, k: nat, measure: Measure)
    requires InRange(s, events) && k < |events| && |s.images| > 0
    ensures InRange(s, events[..k]) && InRange(s, events[..k + 1])
    ensures k + 1 != |s.images| ==>
      Frame(s, events[..k + 1], measure) == Frame(s, events[..k], measure) + CellDraws(s, events[k])
    ensures k + 1 == |s.images| ==>
      Frame(s, events[..k + 1], measure)
      == Frame(s, events[..k], measure) + CellDraws(s, events[k]) + Captions(s, measure) + [Encode]
  {
    var n := |s.images|;
    CellsDrawnStep(s, events, k, n);
    if k + 1 < n {
    } else if k + 1 == n {
      FrameAtCompletion(s, events, k, measure);
    } else {
      FrameAfterCompletion(s, events, k, measure);
    }
  }

  lemma FrameAtCompletion(s: Scene, events: seq<LoadEvent>, k: nat, measure: Measure)
    requires InRange(s, events) && k < |events| && k + 1 == |s.images|
    ensures InRange(s, events[..k]) && InRange(s, events[..k + 1])
    ensures Frame(s, events[..k + 1], measure)
            == CellsDrawn(s, events[..k]) + CellDraws(s, events[k]) + Captions(s, measure) + [Encode]
  {
    var n := |s.images|;
    var post := events[..k + 1];
    CellsDrawnStep(s, events, k, n);
    ghost var cells, f := CellsDrawn(s, post), Finale(s, measure);
    assert Frame(s, post, measure) == cells + f by {
      assert post[..n] == post;
      assert post[n..] == [];
      assert CellsDrawn(s, post[n..]) == [];
      assert cells + f + [] == cells + f;
    }
    AppendAssoc(CellsDrawn(s, events[..k]) + CellDraws(s, events[k]), Captions(s, measure), [Encode]);
  }

  lemma FrameAfterCompletion(s: Scene, events: seq<LoadEvent>, k: nat, measure: Measure)
    requires InRange(s, events) && |s.images| <= k < |events|
    ensures InRange(s, events[..k]) && InRange(s, events[..k + 1])
    ensures Frame(s, events[..k + 1], measure) == Frame(s, events[..k], measure) + CellDraws(s, events[k])
  {
    var n := |s.images|;
    var pre, post := events[..k], events[..k + 1];
    InRangeSlices(s, events, n, k);
    InRangeSlices(s, events, n, k + 1);
    InRangeSlices(s, events, n, n);
    SliceStep(s, events, n, k);
    ghost var a, f, mid, c := CellsDrawn(s, events[..n]), Finale(s, measure), CellsDrawn(s, events[n..k]), CellDraws(s, events[k]);
    assert Frame(s, pre, measure) == a + f + mid by {
      assert pre[..n] == events[..n];
      assert pre[n..] == events[n..k];
    }
    assert Frame(s, post, measure) == a + f + (mid + c) by {
      assert post[..n] == events[..n];
      assert post[n..] == events[n..k + 1];
    }
    AppendAssoc(a + f, mid, c);
  }

  lemma {:induction false} CellsNeverEncode(s: Scene, events: seq<LoadEvent>)
    requires InRange(s, events)
    ensures Encodes(CellsDrawn(s, events)) == 0
  {
    if events != [] {
      var e := events[|events| - 1];
      CellsNeverEncode(s, events[..|events| - 1]);
      CountsConcat(CellsDrawn(s, events[..|events| - 1]), CellDraws(s, e));
      if e.Loaded? {
        var c := CellDraws(s, e);
        CountsPair(c[0], c[1]);
        assert [c[0], c[1]] == c;
      }
    }
  }

  /**
   * Whatever the completion order, a pass encodes the canvas once when every
   * image has completed and never before.
   */
  lemma FrameEncodesOnce(s: Scene, events: seq<LoadEvent>, measure: Measure)
    requires InRange(s, events)
    ensures Encodes(Frame(s, events, measure)) == (if |events| >= |s.images| then 1 else 0)
  {
    var n := |s.images|;
    if |events| < n {
      CellsNeverEncode(s, events);
    } else {
      InRangeSlices(s, events, n, |events|);
      assert events[..|events|] == events;
      ghost var before, f, after := CellsDrawn(s, events[..n]), Finale(s, measure), CellsDrawn(s, events[n..]);
      assert Frame(s, events, measure) == before + f + after;
      CellsNeverEncode(s, events[..n]);
      CellsNeverEncode(s, events[n..]);
      FinaleEncodesOnce(s, measure);
      CountsConcat(before, f);
      CountsConcat(before + f, after);
    }
  }

  /** The finale is the only place that encodes, and it does so once. */
  lemma FinaleEncodesOnce(s: Scene, measure: Measure)
    ensures Encodes(Finale(s, measure)) == 1
  {
    CaptionsPaint(s, measure);
    CountsConcat(Captions(s, measure), [Encode]);
    assert Encodes([Encode]) == 1 by {
      assert [Encode][..0] == [];
    }
  }

  /** Once every image has completed exactly once, the frame is all the cells, then the captions, then the encoding. */
  lemma CompleteFrame(s: Scene, events: seq<LoadEvent>, measure: Measure)
    requires InRange(s, events) && |events| == |s.images|
    ensures Frame(s, events, measure) == CellsDrawn(s, events) + Captions(s, measure) + [Encode]
  {
    var n := |s.images|;
    assert events[..n] == events;
    assert events[n..] == [];
    ghost var cells, f := CellsDrawn(s, events), Finale(s, measure);
    assert CellsDrawn(s, events[n..]) == [];
    assert Frame(s, events, measure) == cells + f + [];
    assert cells + f + [] == cells + f;
  }

  /** Every rectangle a cell paints (its white fill and its image) lies inside the canvas. */
  predicate PaintsWithin(cmds: seq<Draw>, outer: Rect) {
    forall k :: 0 <= k < |cmds| ==>
      (cmds[k].FillRect? ==> cmds[k].rect.Within(outer)) && (cmds[k].DrawImage? ==> cmds[k].rect.Within(outer))
  }

  /** While the mode's maximum is respected, every cell and every fitted image lies inside the canvas. */
  lemma {:induction false} CellsInsideCanvas(s: Scene, events: seq<LoadEvent>)
    requires InRange(s, events) && |s.images| <= MaxImages(s.mode)
    ensures PaintsWithin(CellsDrawn(s, events), CanvasRect(s.mode))
  {
    if events != [] {
      var e := events[|events| - 1];
      var prefix := events[..|events| - 1];
      CellsInsideCanvas(s, prefix);
      var c := CellDraws(s, e);
      if e.Loaded? {
        var cell := CellRect(s.mode, |s.images|, e.index);
        CellInsideCanvas(s.mode, |s.images|, e.index);
        var fit := ContainFit(e.size, cell);
        assert fit.Within(cell);
      }
      assert PaintsWithin(c, CanvasRect(s.mode));
      var a := CellsDrawn(s, prefix);
      assert forall k :: 0 <= k < |a| ==> (a + c)[k] == a[k];
      assert forall k :: |a| <= k < |a + c| ==> (a + c)[k] == c[k - |a|];
    }
  }
}
