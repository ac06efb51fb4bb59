/** The post card (src/components/BlogPost.tsx): its preview text and
    preview image, the cover, the dates line and the parts shown only in
    preview mode. The date formatting is left out; dates are compared as
    the stored values. */
module BlogPost {
  import opened Text
  import opened Wrappers
  import opened Markers
  import TextRenderer

  /** `getPreviewText`'s default `maxLength`. */
  const DefaultMaxLength: nat := 150

  /** `getPreviewText(maxLength)`: HTML content shows the browser's text of
      it (`htmlText`), markdown content the flattened preview, each cut to
      `maxLength` characters plus `...`. */
  function PreviewText(content: string, htmlText: string, maxLength: nat): string {
    if TextRenderer.IsHtml(content) then Truncate(htmlText, maxLength)
    else TextRenderer.MarkdownPreview(content, maxLength)
  }

  /** With the default length the card's preview text is exactly what the
      renderer shows in preview mode, for both kinds of content. */
  lemma PreviewTextAgrees(content: string, htmlText: string)
    ensures TextRenderer.Render(content, true, htmlText).PlainPreview? || TextRenderer.Render(content, true, htmlText).HtmlPreview?
    ensures PreviewText(content, htmlText, DefaultMaxLength) == TextRenderer.Render(content, true, htmlText).text
    ensures TextRenderer.IsHtml(content) <==> TextRenderer.Render(content, true, htmlText).HtmlPreview?
  {
  }

  /** The preview text's bounds: never longer than `maxLength + 3`, the
      whole text when it fits, and for markdown free of `#`, `*`, backticks
      and line feeds. */
  lemma PreviewTextBounds(content: string, htmlText: string, maxLength: nat)
    ensures |PreviewText(content, htmlText, maxLength)| <= maxLength + 3
    ensures TextRenderer.IsHtml(content) && |htmlText| <= maxLength ==> PreviewText(content, htmlText, maxLength) == htmlText
    ensures !TextRenderer.IsHtml(content) ==> TextRenderer.Clean(PreviewText(content, htmlText, maxLength))
  {
    if !TextRenderer.IsHtml(content) {
      TextRenderer.MarkdownPreviewClean(content, maxLength);
    }
  }

  /** `getPreviewImage`: the url of the first marker in the content, else
      the first of the post's images, else nothing. */
  function PreviewImage(content: string, images: seq<string>): Option<string> {
    match FindMarker(content, 0)
    case Some(h) => Some(h.marker.url)
    case None => if |images| > 0 then Some(images[0]) else None
  }

  /** The choice, both ways: a marker's url wins and is never empty, the
      first listed image comes next, and there is no image only when there
      is neither. */
  lemma PreviewImageCases(content: string, images: seq<string>)
    ensures HasMarker(content) ==>
              var h := FindMarker(content, 0).value;
              PreviewImage(content, images) == Some(h.marker.url) && h.marker.url != [] &&
              forall k :: 0 <= k < h.pos ==> MatchAt(content, k).None?
    ensures !HasMarker(content) && images != [] ==> PreviewImage(content, images) == Some(images[0])
    ensures PreviewImage(content, images).None? <==> !HasMarker(content) && images == []
  {
    NoMarkerSplit(content);
    if HasMarker(content) {
      MatchAtSound(content, FindMarker(content, 0).value.pos);
    }
  }

  /** How the cover shows: a colour block, an image, or not at all. */
  datatype CoverView = ColorBlock(color: string) | CoverPicture(src: string)

  /** A cover starting with `#` is a colour, any other non-empty cover an
      image; a missing or empty cover shows nothing. */
  function CoverDisplay(cover: Option<string>): (r: Option<CoverView>)
    ensures r.None? <==> cover.None? || cover.value == ""
    ensures r.Some? && r.value.ColorBlock? <==> cover.Some? && StartsWith(cover.value, "#")
    ensures r.Some? ==> (r.value.ColorBlock? && r.value.color == cover.value) || (r.value.CoverPicture? && r.value.src == cover.value)
  {
    if cover.None? || cover.value == "" then None
    else if cover.value[0] == '#' then Some(ColorBlock(cover.value))
    else Some(CoverPicture(cover.value))
  }

  /** The parts of a card. */
  datatype Card = Card(
    cover: Option<CoverView>,
    showUpdated: bool,
    inlineImage: Option<string>,
    body: TextRenderer.View,
    readMore: bool)

  /** The card for a post; `htmlText` is the browser's text of HTML
      content. */
  function CardOf(content: string, images: seq<string>, coverImage: Option<string>,
                  createdAt: int, updatedAt: int, isPreview: bool, htmlText: string): Card
  {
    var img := PreviewImage(content, images);
    Card(CoverDisplay(coverImage),
         updatedAt != createdAt,
         if isPreview && img.Some? && img.value != "" then img else None,
         TextRenderer.Render(content, isPreview, htmlText),
         isPreview)
  }

  /** The card's rules. The updated date shows exactly when it differs
      from the creation date; the cover shows exactly for a non-empty cover;
      the read-more footer shows exactly in preview mode. The inline image
      shows exactly in preview mode when the content has a marker (then it
      is the first marker's url) or the first listed image is non-empty
      (then it is that image). A preview body holds the preview text of the
      default length; otherwise HTML passes through as it is and markdown is
      rendered as blocks. */
  lemma CardRules(content: string, images: seq<string>, coverImage: Option<string>,
                  createdAt: int, updatedAt: int, isPreview: bool, htmlText: string)
    ensures var c := CardOf(content, images, coverImage, createdAt, updatedAt, isPreview, htmlText);
            (c.showUpdated <==> updatedAt != createdAt) &&
            (c.cover.None? <==> coverImage.None? || coverImage.value == "") &&
            (c.readMore <==> isPreview) &&
            (c.inlineImage.Some? <==> isPreview && (HasMarker(content) || (images != [] && images[0] != ""))) &&
            (isPreview && HasMarker(content) ==> c.inlineImage == Some(FindMarker(content, 0).value.marker.url)) &&
            (isPreview && !HasMarker(content) && images != [] && images[0] != "" ==> c.inlineImage == Some(images[0]))
    ensures var c := CardOf(content, images, coverImage, createdAt, updatedAt, isPreview, htmlText);
            (isPreview ==> (c.body.PlainPreview? || c.body.HtmlPreview?) && c.body.text == PreviewText(content, htmlText, DefaultMaxLength)) &&
            (!isPreview && TextRenderer.IsHtml(content) ==> c.body == TextRenderer.RawHtml(content)) &&
            (!isPreview && !TextRenderer.IsHtml(content) ==> c.body.MarkdownBlocks?)
  {
    PreviewImageCases(content, images);
    PreviewTextAgrees(content, htmlText);
    TextRenderer.RenderCases(content, isPreview, htmlText);
  }
}
