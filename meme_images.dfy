/**
 * The lists the layout compositor keeps: selected source images and custom
 * captions, and the pure updates its handlers apply to them.
 */
module MemeImages {
  import opened Basics

  /** An object URL (`URL.createObjectURL`), the preview handle of an image. */
  type Url = string

  /** What the file input tells about a chosen file. */
  datatype FileInfo = FileInfo(name: string, size: nat)

  datatype SourceImage = SourceImage(file: FileInfo, preview: Url, id: real)

  /** What the platform hands out for one accepted file: its object URL and a `Date.now() + Math.random()` id. */
  datatype Minted = Minted(preview: Url, id: real)

  datatype CustomText = CustomText(
    id: int, text: string, x: real, y: real, imageIndex: int,
    color: string, bgColor: string, bgOpacity: real, isEditing: bool)

  /** The per-file ceiling of an upload: 5 MB. */
  const MaxFileBytes: nat := 5 * 1024 * 1024

  function PreviewOf(img: SourceImage): Url { img.preview }
  function IdOf(img: SourceImage): real { img.id }
  function FileOf(img: SourceImage): FileInfo { img.file }
  function MintedPreview(m: Minted): Url { m.preview }
  function MintedId(m: Minted): real { m.id }

  function Previews(imgs: seq<SourceImage>): seq<Url> { Map(PreviewOf, imgs) }
  function Ids(imgs: seq<SourceImage>): seq<real> { Map(IdOf, imgs) }

  // ----- upload ------------------------------------------------------------

  /** The files an upload keeps, in order: those of at most 5 MB. */
  function ValidFiles(files: seq<FileInfo>): (r: seq<FileInfo>)
    ensures |r| <= |files|
  {
    if files == [] then []
    else (if files[0].size > MaxFileBytes then [] else [files[0]]) + ValidFiles(files[1..])
  }

  /** What `ValidFiles` keeps: exactly the members of `files` that pass its test. */
  lemma {:induction false} ValidFilesMembers(files: seq<FileInfo>)
    ensures forall f :: f in ValidFiles(files) <==> f in files && f.size <= MaxFileBytes
  {
    if files != [] {
      ValidFilesMembers(files[1..]);
      assert files == [files[0]] + files[1..];
    }
  }

  /** The files an upload reports as too large, in order. */
  function TooLarge(files: seq<FileInfo>): (r: seq<FileInfo>)
  {
    if files == [] then []
    else (if files[0].size > MaxFileBytes then [files[0]] else []) + TooLarge(files[1..])
  }

  /** What `TooLarge` keeps: exactly the members of `files` that pass its test. */
  lemma {:induction false} TooLargeMembers(files: seq<FileInfo>)
    ensures forall f :: f in TooLarge(files) <==> f in files && f.size > MaxFileBytes
  {
    if files != [] {
      TooLargeMembers(files[1..]);
      assert files == [files[0]] + files[1..];
    }
  }

  /** Every file is either kept or reported, exactly once. */
  lemma {:induction false} UploadPartitionsFiles(files: seq<FileInfo>)
    ensures multiset(ValidFiles(files)) + multiset(TooLarge(files)) == multiset(files)
  {
    if files != [] {
      var f, rest := files[0], files[1..];
      UploadPartitionsFiles(rest);
      ghost var kept, reported := ValidFiles(rest), TooLarge(rest);
      assert multiset(files) == multiset{f} + multiset(rest) by {
        assert files == [f] + rest;
      }
      if f.size > MaxFileBytes {
        assert ValidFiles(files) == kept by {
          assert ValidFiles(files) == [] + kept;
        }
        assert multiset(TooLarge(files)) == multiset{f} + multiset(reported) by {
          assert TooLarge(files) == [f] + reported;
        }
      } else {
        assert multiset(ValidFiles(files)) == multiset{f} + multiset(kept) by {
          assert ValidFiles(files) == [f] + kept;
        }
        assert TooLarge(files) == reported by {
          assert TooLarge(files) == [] + reported;
        }
      }
    }
  }

  /** Filtering a batch in two parts is filtering each part: the kept files stay in their order. */
  lemma {:induction false} ValidFilesConcat(a: seq<FileInfo>, b: seq<FileInfo>)
    ensures ValidFiles(a + b) == ValidFiles(a) + ValidFiles(b)
  {
    if a != [] {
      assert (a + b)[1..] == a[1..] + b;
      ValidFilesConcat(a[1..], b);
    } else {
      assert a + b == b;
    }
  }

  /** The new image records for the accepted files: the k-th accepted file gets the k-th minted handle. */
  function NewImages(valid: seq<FileInfo>, minted: seq<Minted>): seq<SourceImage>
    requires |valid| <= |minted|
  {
    seq(|valid|, k requires 0 <= k < |valid| => SourceImage(valid[k], minted[k].preview, minted[k].id))
  }

  datatype UploadOutcome =
    | TooMany(max: nat)
    | Accepted(added: seq<SourceImage>, tooLarge: seq<FileInfo>)

  /** `handleImageUpload`: the batch is refused whole when it would pass the mode's maximum. */
  function Upload(current: seq<SourceImage>, files: seq<FileInfo>, max: nat, minted: seq<Minted>): UploadOutcome
    requires |minted| == |files|
  {
    if |current| + |files| > max then TooMany(max)
    else Accepted(NewImages(ValidFiles(files), minted), TooLarge(files))
  }

  /** The image list after an upload. */
  function AfterUpload(current: seq<SourceImage>, outcome: UploadOutcome): seq<SourceImage> {
    match outcome
    case TooMany(_) => current
    case Accepted(added, _) => current + added
  }

  /**
   * An upload that would pass the maximum changes nothing; otherwise the
   * accepted files are appended in order behind the untouched old list, and
   * the count stays within the maximum.
   */
  lemma UploadSpec(current: seq<SourceImage>, files: seq<FileInfo>, max: nat, minted: seq<Minted>)
    requires |minted| == |files|
    ensures var r := AfterUpload(current, Upload(current, files, max, minted));
      && (|current| + |files| > max ==> r == current)
      && (|current| + |files| <= max ==>
            && r[..|current|] == current
            && Map(FileOf, r[|current|..]) == ValidFiles(files)
            && Previews(r[|current|..]) == Map(MintedPreview, minted)[..|r| - |current|]
            && |r| <= max)
      && (|current| <= max ==> |r| <= max)
  {
    var r := AfterUpload(current, Upload(current, files, max, minted));
    if |current| + |files| <= max {
      var added := NewImages(ValidFiles(files), minted);
      assert r[|current|..] == added;
      assert Map(FileOf, added) == ValidFiles(files);
    }
  }

  // ----- removal -----------------------------------------------------------

  /** `prev.filter(img => img.id !== imageId)`. */
  function WithoutImage(imgs: seq<SourceImage>, id: real): (r: seq<SourceImage>)
    ensures |r| <= |imgs|
  {
    if imgs == [] then []
    else (if imgs[0].id == id then [] else [imgs[0]]) + WithoutImage(imgs[1..], id)
  }

  /** What `WithoutImage` keeps: exactly the members of `imgs` that pass its test. */
  lemma {:induction false} WithoutImageMembers(imgs: seq<SourceImage>, id: real)
    ensures forall x :: x in WithoutImage(imgs, id) <==> x in imgs && x.id != id
  {
    if imgs != [] {
      WithoutImageMembers(imgs[1..], id);
      assert imgs == [imgs[0]] + imgs[1..];
    }
  }

  /** The position of the first image with the id: what `prev.find(img => img.id === imageId)` finds. */
  function IndexOfImage(imgs: seq<SourceImage>, id: real): (r: Option<nat>)
    ensures r.Some? ==> r.value < |imgs| && imgs[r.value].id == id
                        && forall j :: 0 <= j < r.value ==> imgs[j].id != id
    ensures r.None? ==> forall j :: 0 <= j < |imgs| ==> imgs[j].id != id
  {
    if imgs == [] then None
    else if imgs[0].id == id then Some(0)
    else match IndexOfImage(imgs[1..], id)
      case None => None
      case Some(k) => Some(k + 1)
  }

  /** The image ids are pairwise different. */
  ghost predicate DistinctIds(imgs: seq<SourceImage>) {
    forall i, j :: 0 <= i < j < |imgs| ==> imgs[i].id != imgs[j].id
  }

  /** Removing an absent id changes nothing. */
  lemma {:induction false} RemoveAbsentImage(imgs: seq<SourceImage>, id: real)
    requires forall j :: 0 <= j < |imgs| ==> imgs[j].id != id
    ensures WithoutImage(imgs, id) == imgs
  {
    if imgs != [] {
      RemoveAbsentImage(imgs[1..], id);
    }
  }

  /** With distinct ids, removal by id takes out exactly the one image that has it. */
  lemma {:induction false} RemoveUniqueImage(imgs: seq<SourceImage>, k: nat)
    requires DistinctIds(imgs) && k < |imgs|
    ensures WithoutImage(imgs, imgs[k].id) == imgs[..k] + imgs[k + 1..]
  {
    var id := imgs[k].id;
    var rest := imgs[1..];
    DistinctIdsTail(imgs);
    if k == 0 {
      assert WithoutImage(imgs, id) == WithoutImage(rest, id) by {
        assert WithoutImage(imgs, id) == [] + WithoutImage(rest, id);
      }
      RemoveAbsentImage(rest, id);
      assert imgs[k + 1..] == rest;
    } else {
      ghost var tail := rest[..k - 1] + rest[k..];
      assert WithoutImage(rest, id) == tail by {
        RemoveUniqueImage(rest, k - 1);
      }
      assert WithoutImage(imgs, id) == [imgs[0]] + tail by {
        assert imgs[0].id != id;
      }
      assert imgs[..k] + imgs[k + 1..] == [imgs[0]] + tail;
    }
  }

  lemma DistinctIdsTail(imgs: seq<SourceImage>)
    requires DistinctIds(imgs) && imgs != []
    ensures DistinctIds(imgs[1..])
    ensures forall j :: 0 <= j < |imgs| - 1 ==> imgs[1..][j].id != imgs[0].id
  {
    assert forall j :: 0 <= j < |imgs| - 1 ==> imgs[1..][j] == imgs[j + 1];
  }

  /** With distinct ids, `find` by id returns the one image that has it. */
  lemma FindUniqueImage(imgs: seq<SourceImage>, k: nat)
    requires DistinctIds(imgs) && k < |imgs|
    ensures IndexOfImage(imgs, imgs[k].id) == Some(k)
  {
  }

  /**
   * `prev.filter(text => text.imageIndex !== imageId)`: the custom captions
   * kept when an image is removed. It compares a caption's image index with
   * the image's id.
   */
  function WithoutCaptionsOf(texts: seq<CustomText>, imageId: real): (r: seq<CustomText>)
  {
    if texts == [] then []
    else (if texts[0].imageIndex as real == imageId then [] else [texts[0]])
         + WithoutCaptionsOf(texts[1..], imageId)
  }

  /** What `WithoutCaptionsOf` keeps: exactly the members of `texts` that pass its test. */
  lemma {:induction false} WithoutCaptionsOfMembers(texts: seq<CustomText>, imageId: real)
    ensures forall t :: t in WithoutCaptionsOf(texts, imageId) <==> t in texts && t.imageIndex as real != imageId
  {
    if texts != [] {
      WithoutCaptionsOfMembers(texts[1..], imageId);
      assert texts == [texts[0]] + texts[1..];
    }
  }

  /**
   * A caption's `imageIndex` is the active image position (0 to 3), far
   * below any `Date.now() + Math.random()` image id: when every caption's
   * position is below the removed id, removing that image keeps every caption.
   */
  lemma {:induction false} CaptionCleanupKeepsAll(texts: seq<CustomText>, imageId: real)
    requires forall t :: t in texts ==> (t.imageIndex as real) < imageId
    ensures WithoutCaptionsOf(texts, imageId) == texts
  {
    if texts != [] {
      assert texts[0] in texts;
      CaptionCleanupKeepsAll(texts[1..], imageId);
    }
  }

  // ----- mode switch -------------------------------------------------------

  /** `prev.slice(0, maxImages)` when the list is longer than the maximum. */
  function Truncated(imgs: seq<SourceImage>, max: nat): (r: seq<SourceImage>)
    ensures |r| <= max || r == imgs
    ensures r + Dropped(imgs, max) == imgs
    ensures |imgs| <= max ==> r == imgs
    ensures |imgs| > max ==> |r| == max
  {
    if |imgs| > max then imgs[..max] else imgs
  }

  /** `selectedImages.slice(maxImages)`: the images a mode switch drops, when there are too many. */
  function Dropped(imgs: seq<SourceImage>, max: nat): seq<SourceImage> {
    if |imgs| > max then imgs[max..] else []
  }

  // ----- custom captions ---------------------------------------------------

  /** The text a click-to-place caption starts with. */
  const NewCaptionText: string := "Nouveau texte"

  /**
   * One axis of the click-to-place mapping: `(offset / displayed) * natural`,
   * from displayed pixels to the image's natural pixels.
   */
  function ClickToNatural(offset: real, displayed: real, natural: real): (r: real)
    requires displayed > 0.0
    ensures r * displayed == offset * natural
    ensures 0.0 <= offset <= displayed && natural >= 0.0 ==> 0.0 <= r <= natural
  {
    ScaleWithin(offset, displayed, natural);
    (offset / displayed) * natural
  }

  lemma ScaleWithin(offset: real, displayed: real, natural: real)
    requires displayed > 0.0
    ensures ((offset / displayed) * natural) * displayed == offset * natural
    ensures 0.0 <= offset <= displayed && natural >= 0.0 ==> 0.0 <= (offset / displayed) * natural <= natural
  {
    var f := offset / displayed;
    assert f * displayed == offset;
    if 0.0 <= offset <= displayed && natural >= 0.0 {
      assert 0.0 <= f <= 1.0;
      assert (1.0 - f) * natural >= 0.0;
    }
  }

  /** A 400x300 preview of an 800x600 image, clicked at (100, 75), anchors the caption at (200, 150). */
  lemma ClickToNaturalExample()
    ensures ClickToNatural(100.0, 400.0, 800.0) == 200.0
    ensures ClickToNatural(75.0, 300.0, 600.0) == 150.0
  {
  }

  /** `updateCustomText`: the matching captions get the new text and leave editing; nothing else changes. */
  function CommitCaption(texts: seq<CustomText>, id: int, newText: string): (r: seq<CustomText>)
    ensures |r| == |texts|
    ensures forall i :: 0 <= i < |texts| && texts[i].id != id ==> r[i] == texts[i]
    ensures forall i :: 0 <= i < |texts| && texts[i].id == id ==>
              r[i] == texts[i].(text := newText, isEditing := false)
  {
    if texts == [] then []
    else [if texts[0].id == id then texts[0].(text := newText, isEditing := false) else texts[0]]
         + CommitCaption(texts[1..], id, newText)
  }

  /** `removeCustomText`: `prev.filter(t => t.id !== textId)`. */
  function WithoutCaption(texts: seq<CustomText>, id: int): (r: seq<CustomText>)
    ensures |r| <= |texts|
  {
    if texts == [] then []
    else (if texts[0].id == id then [] else [texts[0]]) + WithoutCaption(texts[1..], id)
  }

  /** What `WithoutCaption` keeps: exactly the members of `texts` that pass its test. */
  lemma {:induction false} WithoutCaptionMembers(texts: seq<CustomText>, id: int)
    ensures forall t :: t in WithoutCaption(texts, id) <==> t in texts && t.id != id
  {
    if texts != [] {
      WithoutCaptionMembers(texts[1..], id);
      assert texts == [texts[0]] + texts[1..];
    }
  }

  /** The caption ids are pairwise different. */
  ghost predicate DistinctCaptionIds(texts: seq<CustomText>) {
    forall i, j :: 0 <= i < j < |texts| ==> texts[i].id != texts[j].id
  }

  /** Removing an id no caption has changes nothing. */
  lemma {:induction false} RemoveAbsentCaption(texts: seq<CustomText>, id: int)
    requires forall j :: 0 <= j < |texts| ==> texts[j].id != id
    ensures WithoutCaption(texts, id) == texts
  {
    if texts != [] {
      RemoveAbsentCaption(texts[1..], id);
    }
  }

  lemma DistinctCaptionIdsTail(texts: seq<CustomText>)
    requires DistinctCaptionIds(texts) && texts != []
    ensures DistinctCaptionIds(texts[1..])
    ensures forall j :: 0 <= j < |texts| - 1 ==> texts[1..][j].id != texts[0].id
  {
  }

  /** With distinct ids, removing a caption's id takes out exactly that caption and keeps the order of the rest. */
  lemma {:induction false} RemoveUniqueCaption(texts: seq<CustomText>, k: nat)
    requires DistinctCaptionIds(texts) && k < |texts|
    ensures WithoutCaption(texts, texts[k].id) == texts[..k] + texts[k + 1..]
  {
    var id := texts[k].id;
    var rest := texts[1..];
    DistinctCaptionIdsTail(texts);
    if k == 0 {
      assert WithoutCaption(texts, id) == WithoutCaption(rest, id) by {
        assert WithoutCaption(texts, id) == [] + WithoutCaption(rest, id);
      }
      RemoveAbsentCaption(rest, id);
      assert texts[k + 1..] == rest;
    } else {
      ghost var tail := rest[..k - 1] + rest[k..];
      assert WithoutCaption(rest, id) == tail by {
        RemoveUniqueCaption(rest, k - 1);
      }
      assert WithoutCaption(texts, id) == [texts[0]] + tail by {
        assert texts[0].id != id;
      }
      assert texts[..k] + texts[k + 1..] == [texts[0]] + tail;
    }
  }
}
