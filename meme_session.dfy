/**
 * The layout compositor's component state and its handlers. Each React
 * `useState` field is a field of `MemeSession`; each handler is a method that
 * rewrites exactly the fields its setters touch. `URL.revokeObjectURL` calls
 * are recorded, in order, in `revoked`.
 */
module MemeGenerator {
  import opened Basics
  import opened JsText
  import opened Canvas
  import opened MemeLayout
  import opened MemeImages
  import opened MemeComposite

  /**
   * The preview handles stay releasable exactly once: the live images hold
   * pairwise different ids and pairwise different preview handles, no handle
   * was released twice, and no live image holds a released handle.
   */
  ghost predicate HandlesLive(imgs: seq<SourceImage>, revoked: seq<Url>) {
    && (forall i, j :: 0 <= i < j < |imgs| ==> imgs[i].id != imgs[j].id && imgs[i].preview != imgs[j].preview)
    && Distinct(revoked)
    && (forall i, r :: 0 <= i < |imgs| && 0 <= r < |revoked| ==> imgs[i].preview != revoked[r])
  }

  /**
   * What `Date.now() + Math.random()` and `URL.createObjectURL` are relied on
   * to give: ids and handles never seen before, pairwise different.
   */
  ghost predicate FreshHandles(minted: seq<Minted>, imgs: seq<SourceImage>, revoked: seq<Url>) {
    && (forall i, j :: 0 <= i < j < |minted| ==> minted[i].id != minted[j].id && minted[i].preview != minted[j].preview)
    && (forall i, k :: 0 <= i < |imgs| && 0 <= k < |minted| ==>
          imgs[i].id != minted[k].id && imgs[i].preview != minted[k].preview)
    && (forall r, k :: 0 <= r < |revoked| && 0 <= k < |minted| ==> revoked[r] != minted[k].preview)
  }

  /** Appending images made from fresh handles keeps every handle releasable once. */
  lemma AppendFreshKeepsLive(imgs: seq<SourceImage>, revoked: seq<Url>, valid: seq<FileInfo>, minted: seq<Minted>)
    requires HandlesLive(imgs, revoked) && FreshHandles(minted, imgs, revoked) && |valid| <= |minted|
    ensures HandlesLive(imgs + NewImages(valid, minted), revoked)
  {
    var added := NewImages(valid, minted);
    var all := imgs + added;
    forall i, j | 0 <= i < j < |all| ensures all[i].id != all[j].id && all[i].preview != all[j].preview {
      if i >= |imgs| {
        assert all[i] == added[i - |imgs|] && all[j] == added[j - |imgs|];
      } else if j >= |imgs| {
        assert all[j] == added[j - |imgs|];
      }
    }
    forall i, r | 0 <= i < |all| && 0 <= r < |revoked| ensures all[i].preview != revoked[r] {
      if i >= |imgs| {
        assert all[i] == added[i - |imgs|];
      }
    }
  }

  /** Releasing the handles of a suffix keeps the prefix's handles live and nothing released twice. */
  lemma ReleaseSuffixKeepsLive(imgs: seq<SourceImage>, revoked: seq<Url>, n: nat)
    requires HandlesLive(imgs, revoked) && n <= |imgs|
    ensures HandlesLive(imgs[..n], revoked + Previews(imgs[n..]))
  {
    var kept, gone := imgs[..n], Previews(imgs[n..]);
    var log := revoked + gone;
    assert forall k :: 0 <= k < |gone| ==> gone[k] == imgs[n + k].preview;
    forall a, b | 0 <= a < b < |log| ensures log[a] != log[b] {
      if b < |revoked| {
        assert log[a] == revoked[a] && log[b] == revoked[b];
      } else if a < |revoked| {
        assert log[a] == revoked[a] && log[b] == imgs[n + b - |revoked|].preview;
      } else {
        assert log[a] == imgs[n + a - |revoked|].preview && log[b] == imgs[n + b - |revoked|].preview;
      }
    }
    forall i, r | 0 <= i < |kept| && 0 <= r < |log| ensures kept[i].preview != log[r] {
      if r < |revoked| {
        assert log[r] == revoked[r];
      } else {
        assert log[r] == imgs[n + r - |revoked|].preview;
      }
    }
  }

  /** Releasing the handle of one image keeps the others' handles live and nothing released twice. */
  lemma ReleaseOneKeepsLive(imgs: seq<SourceImage>, revoked: seq<Url>, k: nat)
    requires HandlesLive(imgs, revoked) && k < |imgs|
    ensures HandlesLive(imgs[..k] + imgs[k + 1..], revoked + [imgs[k].preview])
  {
    var rest := imgs[..k] + imgs[k + 1..];
    var log := revoked + [imgs[k].preview];
    assert forall i :: 0 <= i < |rest| ==> rest[i] == imgs[if i < k then i else i + 1];
    forall a, b | 0 <= a < b < |log| ensures log[a] != log[b] {
      if b < |revoked| {
        assert log[a] == revoked[a] && log[b] == revoked[b];
      } else {
        assert log[a] == revoked[a] && log[b] == imgs[k].preview;
      }
    }
    forall i, r | 0 <= i < |rest| && 0 <= r < |log| ensures rest[i].preview != log[r] {
      if r < |revoked| {
        assert log[r] == revoked[r];
      } else {
        assert log[r] == imgs[k].preview;
      }
    }
  }

  /** Where `handleSaveMeme` stops before any network call. */
  datatype SaveStep =
    | MissingTitle
    | NothingToRender
    | Proceed

  class MemeSession {
    var selectedImages: seq<SourceImage>
    var customTexts: seq<CustomText>
    var displayMode: DisplayMode
    var activeImageIndex: int
    var topText: string
    var bottomText: string
    var title: string
    var textEditMode: bool
    var textColor: string
    var textBgColor: string
    var textBgOpacity: real
    var editingText: string
    /** The object URL of the last encoded meme; `null` is `None`. */
    var preview: Option<Url>
    /** Every `URL.revokeObjectURL` argument, in call order. */
    var revoked: seq<Url>

    /** The image count respects the mode's maximum and every preview handle is releasable once. */
    ghost predicate Valid()
      reads this
    {
      |selectedImages| <= MaxImages(displayMode) && HandlesLive(selectedImages, revoked)
    }

    /** The initial `useState` values. */
    constructor()
      ensures Valid()
      ensures selectedImages == [] && customTexts == [] && displayMode == Single && activeImageIndex == 0
      ensures topText == [] && bottomText == [] && title == [] && !textEditMode && editingText == []
      ensures textColor == "#ffffff" && textBgColor == "#000000" && textBgOpacity == 0.7
      ensures preview == None && revoked == []
    {
      selectedImages := [];
      customTexts := [];
      displayMode := Single;
      activeImageIndex := 0;
      topText := "";
      bottomText := "";
      title := "";
      textEditMode := false;
      textColor := "#ffffff";
      textBgColor := "#000000";
      textBgOpacity := 0.7;
      editingText := "";
      preview := None;
      revoked := [];
    }

    /** What one pass of `generateMemeImage` reads. */
    function CurrentScene(): Scene
      reads this
    {
      Scene(displayMode, selectedImages, topText, bottomText, customTexts,
            CaptionStyle(textColor, textBgColor, textBgOpacity))
    }

    /**
     * `handleImageUpload`: `minted[k]` is the handle and id the k-th accepted
     * file receives. A batch that would pass the mode's maximum is refused whole.
     */
    method HandleImageUpload(files: seq<FileInfo>, minted: seq<Minted>) returns (outcome: UploadOutcome)
      requires Valid() && |minted| == |files| && FreshHandles(minted, selectedImages, revoked)
      modifies this`selectedImages
      ensures Valid()
      ensures outcome == Upload(old(selectedImages), files, MaxImages(displayMode), minted)
      ensures selectedImages == AfterUpload(old(selectedImages), outcome)
    {
      var maxImages := MaxImages(displayMode);
      if |selectedImages| + |files| > maxImages {
        return TooMany(maxImages);
      }
      var validFiles := ValidFiles(files);
      var newImages := NewImages(validFiles, minted);
      AppendFreshKeepsLive(selectedImages, revoked, validFiles, minted);
      selectedImages := selectedImages + newImages;
      outcome := Accepted(newImages, TooLarge(files));
    }

    /**
     * `removeImage`: drops the images with that id, releases the handle of the
     * first one found, and drops the custom captions whose image index equals the id.
     */
    method RemoveImage(imageId: real)
      requires Valid()
      modifies this`selectedImages, this`revoked, this`customTexts
      ensures Valid()
      ensures selectedImages == WithoutImage(old(selectedImages), imageId)
      ensures revoked == old(revoked) + match IndexOfImage(old(selectedImages), imageId)
                                         case Some(k) => [old(selectedImages)[k].preview]
                                         case None => []
      ensures customTexts == WithoutCaptionsOf(old(customTexts), imageId)
    {
      var prev := selectedImages;
      var updated := WithoutImage(prev, imageId);
      var removedImage := IndexOfImage(prev, imageId);
      match removedImage {
        case Some(k) =>
          RemoveUniqueImage(prev, k);
          ReleaseOneKeepsLive(prev, revoked, k);
          revoked := revoked + [prev[k].preview];
        case None =>
          RemoveAbsentImage(prev, imageId);
      }
      selectedImages := updated;
      customTexts := WithoutCaptionsOf(customTexts, imageId);
    }

    /** `excess.forEach(img => URL.revokeObjectURL(img.preview))`. */
    method RevokePreviews(imgs: seq<SourceImage>)
      modifies this`revoked
      ensures revoked == old(revoked) + Previews(imgs)
    {
      for i := 0 to |imgs|
        invariant revoked == old(revoked) + Previews(imgs[..i])
      {
        assert imgs[..i + 1] == imgs[..i] + [imgs[i]];
        MapConcat(PreviewOf, imgs[..i], [imgs[i]]);
        revoked := revoked + [imgs[i].preview];
      }
      assert imgs[..|imgs|] == imgs;
    }

    /**
     * A display-mode button: switches the mode, and when there are too many
     * images releases the handles of the excess and keeps `slice(0, max)`.
     * The custom captions are left as they are.
     */
    method SelectMode(mode: DisplayMode)
      requires Valid()
      modifies this`displayMode, this`selectedImages, this`revoked
      ensures Valid()
      ensures displayMode == mode
      ensures selectedImages == Truncated(old(selectedImages), MaxImages(mode))
      ensures revoked == old(revoked) + Previews(Dropped(old(selectedImages), MaxImages(mode)))
    {
      displayMode := mode;
      var maxImages := MaxImages(mode);
      if |selectedImages| > maxImages {
        var excess := selectedImages[maxImages..];
        ReleaseSuffixKeepsLive(selectedImages, revoked, maxImages);
        RevokePreviews(excess);
        selectedImages := selectedImages[..maxImages];
      } else {
        assert Previews([]) == [];
      }
    }

    /** `resetForm`: releases every preview handle once and empties the images, captions and texts. */
    method ResetForm()
      requires Valid()
      modifies this`selectedImages, this`revoked, this`topText, this`bottomText, this`title,
               this`customTexts, this`preview, this`activeImageIndex
      ensures Valid()
      ensures revoked == old(revoked) + Previews(old(selectedImages))
      ensures selectedImages == [] && customTexts == [] && topText == [] && bottomText == [] && title == []
      ensures preview == None && activeImageIndex == 0
    {
      ReleaseSuffixKeepsLive(selectedImages, revoked, 0);
      assert selectedImages[0..] == selectedImages;
      RevokePreviews(selectedImages);
      selectedImages := [];
      topText := "";
      bottomText := "";
      title := "";
      customTexts := [];
      preview := None;
      activeImageIndex := 0;
    }

    /** A thumbnail click. */
    method SetActiveImage(index: int)
      modifies this`activeImageIndex
      ensures activeImageIndex == index
    {
      activeImageIndex := index;
    }

    /** The text-mode button. */
    method ToggleTextEditMode()
      modifies this`textEditMode
      ensures textEditMode == !old(textEditMode)
    {
      textEditMode := !textEditMode;
    }

    /** `handleChangeTop`. */
    method SetTopText(value: string)
      modifies this`topText
      ensures topText == value
    {
      topText := value;
    }

    /** `handleChangeBot`. */
    method SetBottomText(value: string)
      modifies this`bottomText
      ensures bottomText == value
    {
      bottomText := value;
    }

    method SetTitle(value: string)
      modifies this`title
      ensures title == value
    {
      title := value;
    }

    method SetCaptionStyle(color: string, bgColor: string, bgOpacity: real)
      modifies this`textColor, this`textBgColor, this`textBgOpacity
      ensures textColor == color && textBgColor == bgColor && textBgOpacity == bgOpacity
    {
      textColor := color;
      textBgColor := bgColor;
      textBgOpacity := bgOpacity;
    }

    /** The caption being edited: `setEditingText`. */
    method SetEditingText(value: string)
      modifies this`editingText
      ensures editingText == value
    {
      editingText := value;
    }

    /**
     * `handleCanvasClick`, with the click at (`offsetX`, `offsetY`) from the
     * preview's top-left corner: ignored unless text mode is on, there is an
     * image and the preview (with its canvas) is shown; otherwise a caption in
     * editing state is appended at the click, mapped to the image's natural pixels.
     */
    method HandleCanvasClick(offsetX: real, offsetY: real, displayedWidth: real, displayedHeight: real,
                             naturalWidth: real, naturalHeight: real, now: int)
      requires displayedWidth > 0.0 && displayedHeight > 0.0
      modifies this`customTexts
      ensures !textEditMode || selectedImages == [] || preview.None? ==> customTexts == old(customTexts)
      ensures textEditMode && selectedImages != [] && preview.Some? ==>
        customTexts == old(customTexts) + [CustomText(now, NewCaptionText,
          ClickToNatural(offsetX, displayedWidth, naturalWidth), ClickToNatural(offsetY, displayedHeight, naturalHeight),
          activeImageIndex, textColor, textBgColor, textBgOpacity, true)]
    {
      if !textEditMode || |selectedImages| == 0 {
        return;
      }
      if preview.None? {
        return;
      }
      var x := ClickToNatural(offsetX, displayedWidth, naturalWidth);
      var y := ClickToNatural(offsetY, displayedHeight, naturalHeight);
      var newText := CustomText(now, NewCaptionText, x, y, activeImageIndex, textColor, textBgColor, textBgOpacity, true);
      customTexts := customTexts + [newText];
    }

    /** `updateCustomText`. */
    method UpdateCustomText(textId: int, newText: string)
      modifies this`customTexts
      ensures customTexts == CommitCaption(old(customTexts), textId, newText)
    {
      customTexts := CommitCaption(customTexts, textId, newText);
    }

    /** Blur or Enter in a caption's input: commits the edited text, then clears it. */
    method CommitEditingText(textId: int)
      modifies this`customTexts, this`editingText
      ensures customTexts == CommitCaption(old(customTexts), textId, old(editingText))
      ensures editingText == []
    {
      UpdateCustomText(textId, editingText);
      editingText := "";
    }

    /** `removeCustomText`: every caption with the id goes, and since ids are `Date.now()` values that can repeat, that may be more than one. */
    method RemoveCustomText(textId: int)
      modifies this`customTexts
      ensures customTexts == WithoutCaption(old(customTexts), textId)
    {
      customTexts := WithoutCaption(customTexts, textId);
    }

    /**
     * `generateMemeImage` with the decodes completing in the order `events`;
     * `blobUrl` is the object URL made for the encoded blob, `None` when
     * `toBlob` yields no blob. The preview changes only when the pass
     * finalised with a blob.
     */
    method GenerateMemeImage(events: seq<LoadEvent>, measure: Measure, blobUrl: Option<Url>) returns (r: Option<Pass>)
      requires InRange(CurrentScene(), events)
      modifies this`preview
      ensures r.None? <==> selectedImages == []
      ensures r.Some? ==> r.value.draws == Frame(CurrentScene(), events, measure)
      ensures r.Some? ==> r.value.finalisations == (if |events| >= |selectedImages| then 1 else 0)
      ensures preview == (if r.Some? && r.value.finalisations == 1 && blobUrl.Some? then blobUrl else old(preview))
    {
      r := Composite(CurrentScene(), events, measure);
      if r.Some? && r.value.finalisations == 1 && blobUrl.Some? {
        preview := blobUrl;
      }
    }

    /**
     * The checks `handleSaveMeme` makes before any network call: a title made
     * only of white space is refused, and nothing is rendered without images.
     */
    function SavePrecheck(): (r: SaveStep)
      reads this
      ensures r == MissingTitle <==> Blank(title)
      ensures r == NothingToRender <==> !Blank(title) && selectedImages == []
      ensures r == Proceed <==> !Blank(title) && selectedImages != []
    {
      TrimEmptyIffBlank(title);
      if Trim(title) == [] then MissingTitle
      else if |selectedImages| == 0 then NothingToRender
      else Proceed
    }
  }
}
