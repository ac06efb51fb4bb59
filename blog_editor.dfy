/** The post form (src/components/BlogEditor.tsx): the save guard and its
    cover default, the image list edits and the upload checks. The image
    search request, the clock and image compression are parameters. */
module BlogEditor {
  import opened Text
  import opened Wrappers

  /** What the form starts from when a post is edited. */
  datatype Draft = Draft(title: string, content: string, images: seq<string>, coverImage: Option<string>)

  /** What the form hands to its owner on save. */
  datatype Saved = Saved(title: string, content: string, images: seq<string>, coverImage: string)

  /** An uploaded file: its name, its MIME type and its size in bytes. */
  datatype FileInfo = FileInfo(name: string, mimeType: string, size: nat)

  const MaxFiles: nat := 5
  const MaxFileSize: nat := 5 * 1024 * 1024

  /** `generateSolidColor()`: always grey. */
  const SolidColor: string := "#808080"

  /** A file passes when its type starts with `image/` and it is at most
      5 MiB. */
  predicate Acceptable(f: FileInfo) {
    StartsWith(f.mimeType, "image/") && f.size <= MaxFileSize
  }

  /** The files that pass, in their order. */
  function ValidFiles(files: seq<FileInfo>): (r: seq<FileInfo>)
    ensures |r| <= |files|
    ensures forall f :: f in r <==> f in files && Acceptable(f)
  {
    if files == [] then []
    else (if Acceptable(files[0]) then [files[0]] else []) + ValidFiles(files[1..])
  }

  /** The filter keeps order: it distributes over concatenation. */
  lemma {:induction false} ValidFilesAppend(a: seq<FileInfo>, b: seq<FileInfo>)
    ensures ValidFiles(a + b) == ValidFiles(a) + ValidFiles(b)
  {
    if a == [] {
      assert a + b == b;
    } else {
      assert (a + b)[0] == a[0] && (a + b)[1..] == a[1..] + b;
      ValidFilesAppend(a[1..], b);
    }
  }

  /** A batch of acceptable files is kept whole. */
  lemma {:induction false} ValidFilesAll(files: seq<FileInfo>)
    requires forall k :: 0 <= k < |files| ==> Acceptable(files[k])
    ensures ValidFiles(files) == files
  {
    if files != [] {
      ValidFilesAll(files[1..]);
    }
  }

  /** `Promise.all(files.map(compress))`: all the results, in order, or
      nothing when any one fails. */
  function CompressAll(files: seq<FileInfo>, compress: FileInfo -> Option<string>): (r: Option<seq<string>>)
    ensures r.Some? ==> |r.value| == |files| && forall k :: 0 <= k < |files| ==> compress(files[k]) == Some(r.value[k])
    ensures r.None? <==> exists k :: 0 <= k < |files| && compress(files[k]).None?
  {
    if files == [] then Some([])
    else match (compress(files[0]), CompressAll(files[1..], compress))
      case (Some(u), Some(us)) =>
        assert forall k :: 1 <= k < |files| ==> files[k] == files[1..][k - 1];
        Some([u] + us)
      case (None, _) => None
      case (_, None) =>
        var k :| 0 <= k < |files[1..]| && compress(files[1..][k]).None?;
        assert files[k + 1] == files[1..][k];
        None
  }

  /** `!title.trim() || !content.trim()`, negated. */
  predicate CanSave(title: string, content: string) {
    !IsBlank(title) && !IsBlank(content)
  }

  /** `handleSave`: nothing unless title and content are both non-blank;
      then the fields as they are, with an empty cover replaced by grey. */
  function SaveRequest(title: string, content: string, images: seq<string>, cover: string): (r: Option<Saved>)
    ensures r.Some? <==> CanSave(title, content)
    ensures r.Some? ==> r.value.title == title && r.value.content == content && r.value.images == images
    ensures r.Some? ==> r.value.coverImage != "" && (cover != "" ==> r.value.coverImage == cover)
    ensures r.Some? && cover == "" ==> r.value.coverImage == SolidColor
  {
    if !CanSave(title, content) then None
    else Some(Saved(title, content, images, if cover != "" then cover else SolidColor))
  }

  /** `images.filter((_, i) => i !== index)`, walking the list with the
      index `at` of its head. */
  function DropIndex(images: seq<string>, index: int, at: int): seq<string> {
    if images == [] then []
    else (if at == index then [] else [images[0]]) + DropIndex(images[1..], index, at + 1)
  }

  function WithoutIndex(images: seq<string>, index: int): seq<string> {
    DropIndex(images, index, 0)
  }

  lemma {:induction false} DropIndexOutside(images: seq<string>, index: int, at: int)
    requires index < at || at + |images| <= index
    ensures DropIndex(images, index, at) == images
  {
    if images != [] {
      DropIndexOutside(images[1..], index, at + 1);
    }
  }

  lemma {:induction false} DropIndexInside(images: seq<string>, index: int, at: int)
    requires at <= index < at + |images|
    ensures DropIndex(images, index, at) == images[..index - at] + images[index - at + 1..]
  {
    if at == index {
      DropIndexOutside(images[1..], index, at + 1);
    } else {
      DropIndexInside(images[1..], index, at + 1);
      assert images[..index - at] == [images[0]] + images[1..][..index - at - 1];
      assert images[index - at + 1..] == images[1..][index - at..];
    }
  }

  /** Removing by index drops exactly that entry and keeps the rest in
      order; an index outside the list changes nothing. */
  lemma WithoutIndexSpec(images: seq<string>, index: int)
    ensures 0 <= index < |images| ==> WithoutIndex(images, index) == images[..index] + images[index + 1..]
    ensures !(0 <= index < |images|) ==> WithoutIndex(images, index) == images
  {
    if 0 <= index < |images| {
      DropIndexInside(images, index, 0);
    } else {
      DropIndexOutside(images, index, 0);
    }
  }

  /** How the image search request ended. */
  datatype FetchOutcome = FetchOk(url: string) | FetchFailed | FetchThrew

  /** The url an image search adds: the found one, or on an error status
      or an exception the placeholder service's url stamped with `now`. */
  function FoundOrFallback(outcome: FetchOutcome, fallback: string, now: nat): (r: string)
    ensures outcome.FetchOk? ==> r == outcome.url
    ensures !outcome.FetchOk? ==> r == fallback + NatToString(now)
  {
    match outcome
    case FetchOk(u) => u
    case _ => fallback + NatToString(now)
  }

  const ImageFallback: string := "https://picsum.photos/400/300?random="
  const CoverFallback: string := "https://picsum.photos/800/400?random="

  class Form {
    var title: string
    var content: string
    var images: seq<string>
    var coverImage: string
    var imageQuery: string
    var coverImageQuery: string

    /** The fields of the edited post, or empty ones for a new post. */
    constructor (initial: Option<Draft>)
      ensures initial.None? ==> title == "" && content == "" && images == [] && coverImage == ""
      ensures initial.Some? ==> title == initial.value.title && content == initial.value.content && images == initial.value.images
      ensures initial.Some? ==> coverImage == (if initial.value.coverImage.Some? then initial.value.coverImage.value else "")
      ensures imageQuery == "" && coverImageQuery == ""
    {
      if initial.Some? {
        title := initial.value.title;
        content := initial.value.content;
        images := initial.value.images;
        coverImage := if initial.value.coverImage.Some? then initial.value.coverImage.value else "";
      } else {
        title := "";
        content := "";
        images := [];
        coverImage := "";
      }
      imageQuery := "";
      coverImageQuery := "";
    }

    /** `addImage`: a blank query does nothing; otherwise exactly one url
      is appended, whatever the request's outcome, and the query cleared. */
    method AddImage(outcome: FetchOutcome, now: nat)
      modifies this
      ensures title == old(title) && content == old(content) && coverImage == old(coverImage) && coverImageQuery == old(coverImageQuery)
      ensures IsBlank(old(imageQuery)) ==> images == old(images) && imageQuery == old(imageQuery)
      ensures !IsBlank(old(imageQuery)) ==> images == old(images) + [FoundOrFallback(outcome, ImageFallback, now)] && imageQuery == ""
    {
      if IsBlank(imageQuery) {
        return;
      }
      var url := FoundOrFallback(outcome, ImageFallback, now);
      images := images + [url];
      imageQuery := "";
    }

    /** `removeImage(index)` */
    method RemoveImage(index: int)
      modifies this
      ensures images == WithoutIndex(old(images), index)
      ensures title == old(title) && content == old(content) && coverImage == old(coverImage)
      ensures imageQuery == old(imageQuery) && coverImageQuery == old(coverImageQuery)
    {
      images := WithoutIndex(images, index);
    }

    /** `handleFileUpload`: no list, or more than five files, does nothing;
      otherwise the acceptable files are compressed and, when there is at
      least one and every compression succeeds, their results are appended
      in order. */
    method HandleFileUpload(files: Option<seq<FileInfo>>, compress: FileInfo -> Option<string>)
      modifies this
      ensures title == old(title) && content == old(content) && coverImage == old(coverImage)
      ensures imageQuery == old(imageQuery) && coverImageQuery == old(coverImageQuery)
      ensures files.None? || |files.value| > MaxFiles ==> images == old(images)
      ensures files.Some? && |files.value| <= MaxFiles ==>
                var valid := ValidFiles(files.value);
                images == (if valid != [] && CompressAll(valid, compress).Some?
                           then old(images) + CompressAll(valid, compress).value
                           else old(images))
    {
      if files.None? {
        return;
      }
      if |files.value| > MaxFiles {
        return;
      }
      var valid := ValidFiles(files.value);
      if |valid| == 0 {
        return;
      }
      var compressed := CompressAll(valid, compress);
      if compressed.Some? {
        images := images + compressed.value;
      }
    }

    /** `addCoverImage`: like `addImage`, but the url replaces the cover. */
    method AddCoverImage(outcome: FetchOutcome, now: nat)
      modifies this
      ensures title == old(title) && content == old(content) && images == old(images) && imageQuery == old(imageQuery)
      ensures IsBlank(old(coverImageQuery)) ==> coverImage == old(coverImage) && coverImageQuery == old(coverImageQuery)
      ensures !IsBlank(old(coverImageQuery)) ==> coverImage == FoundOrFallback(outcome, CoverFallback, now) && coverImageQuery == ""
    {
      if IsBlank(coverImageQuery) {
        return;
      }
      coverImage := FoundOrFallback(outcome, CoverFallback, now);
      coverImageQuery := "";
    }

    /** `handleCoverImageUpload`: only the first file counts; it must be
      acceptable and compress successfully to become the cover. */
    method HandleCoverImageUpload(files: Option<seq<FileInfo>>, compress: FileInfo -> Option<string>)
      modifies this
      ensures title == old(title) && content == old(content) && images == old(images)
      ensures imageQuery == old(imageQuery) && coverImageQuery == old(coverImageQuery)
      ensures files.None? || files.value == [] ==> coverImage == old(coverImage)
      ensures files.Some? && files.value != [] ==>
                var f := files.value[0];
                coverImage == (if Acceptable(f) && compress(f).Some? then compress(f).value else old(coverImage))
    {
      if files.None? || |files.value| == 0 {
        return;
      }
      var f := files.value[0];
      if !Acceptable(f) {
        return;
      }
      var c := compress(f);
      if c.Some? {
        coverImage := c.value;
      }
    }

    /** The save button is disabled exactly when saving would do nothing. */
    predicate SaveDisabled()
      reads this
    {
      !CanSave(title, content)
    }

    /** `handleSave`: what is handed on, if anything. */
    method HandleSave() returns (r: Option<Saved>)
      ensures r == SaveRequest(title, content, images, coverImage)
      ensures r.None? <==> SaveDisabled()
    {
      r := SaveRequest(title, content, images, coverImage);
    }
  }
}
