# XO1.618 blog core, modelled in Dafny

XO1.618 is a small blog. Its server is a key-value store with five routes. Its browser application has three views: a slideshow of posts on the home page, a post editor, and a post page. This project models the logic behind them:

- **Markers.** Posts are markdown-like strings. Images are written inline as markers `![alt](url)`. Every component that handles images uses the same left-to-right regular-expression scan for these markers. The scan is modelled once, as a pure function, in `markers.dfy`.
- **Editor codec.** The block editor (`content_editor.dfy`) decodes a document into text and image parts. It re-encodes the parts after every edit.
- **Renderers.** The two renderers (`content_renderer.dfy`, `text_renderer.dfy`) cut and classify lines into a `Block` datatype instead of React elements. They share the header and inline rules in `markdown.dfy`. They also build the plain-text preview.
- **Stateful components.** The slideshow cursor with its wheel lock (`blog_list.dfy`), the post form (`blog_editor.dfy`) and the application shell (`app.dfy`) are classes. Their handlers are methods that change the component state.
- **Post card.** `blog_post.dfy` covers the post card's preview, cover and date rules.
- **Server routes.** `server.dfy` models the server routes as methods over a `map` field.

Loops in the source stay loops in the model. Examples: the `regex.exec` loops of the editor and the renderer (`ContentEditor.ScanParts`, `ContentRenderer.CollectSegments`) and the store's prefix scan (`Server.Store.FetchAll`). Each is proved equal to the pure scan or specification function. The properties are then proved about that function.

Inputs that the code takes from the outside world become parameters:

- `Date.now()`, `new Date()` and `crypto.randomUUID()`;
- the outcome of every HTTP request;
- the result of image compression, modelled as a function from file to optional data-URL;
- the browser's `textContent` of HTML content;
- `confirm()`;
- stored and preferred themes;
- failures of the key-value store.

Strings are `seq<char>`. The white space that `trim` removes is limited to ASCII. The characters the regex `.` refuses are `\n`, `\r`, U+2028 and U+2029.

## Model

| member | source | states |
|---|---|---|
| Markers.MatchAt | src/components/RichContentEditor.tsx:31 | A match at `i` always fits inside the text. |
| Markers.MatchAtIff | src/components/RichContentEditor.tsx:31 | The marker regex matches at `i` with groups `m` exactly when a well-formed marker (alt without `]`, url non-empty and without `)`) is written at `i`. Both directions are proved (`MatchAtSound`, `MatchAtComplete`). |
| Markers.MatchAtSound | src/components/RichContentEditor.tsx:31 | A match captures a well-formed marker, and the matched text is that marker's source. |
| Markers.MatchAtComplete | src/components/RichContentEditor.tsx:31 | A well-formed marker written at `i` is matched there with exactly its two groups. |
| Markers.FindMarker | src/components/RichContentEditor.tsx:36 | `regex.exec` from `lastIndex`: the hit is a match at or after the start, and no position before it matches. With no hit, no position from the start on matches. |
| Markers.Split | src/components/RichContentEditor.tsx:36-68 | The global marker scan: the text before each match, the match, then the rest. `SplitJoin`, `SplitShape` and `NoMarkerSplit` state its properties. |
| Markers.StripMarkers | src/components/RichTextRenderer.tsx:17 | Deleting every marker: the scan's text runs, joined. `TextRenderer.MarkdownPreviewClean` builds on it. |
| Markers.WithImageAlts | src/components/RichContentEditor.tsx:83-90 | The document with every marker's alt text made `Image`. `WithImageAltsIdentity` states when this changes nothing. |
| Markers.SplitJoin | src/components/RichContentEditor.tsx:36-68 | The scan loses nothing: the pieces (text runs and markers) concatenate back to the scanned text. |
| Markers.SplitShape | src/components/RichContentEditor.tsx:36-68 | The pieces start at strictly increasing offsets. Text runs are non-empty and never adjacent. Every marker is well formed. |
| Markers.NoMarkerSplit | src/components/RichContentEditor.tsx:36-68 | With no match anywhere, the scan is the whole text as one run, or nothing for the empty text. With a match, the scan holds an image piece. |
| Markers.WithImageAltsIdentity | src/components/RichContentEditor.tsx:83-90 | Rewriting every marker's alt text to `Image` leaves a text unchanged exactly when all its alt texts already are `Image`. |
| Markers.JoinAsImagesOnlyWhenImage | src/components/RichContentEditor.tsx:86 | One marker whose alt text is not `Image` is enough to make the rewritten text differ from the original. |
| ContentEditor.ParseContent | src/components/RichContentEditor.tsx:22-80 | `parseContent`, run as the source's branches, equals the decoding function `Decode`. |
| ContentEditor.ScanParts | src/components/RichContentEditor.tsx:31-68 | The `exec` loop with `lastIndex` and `push` produces exactly the labelled pieces of the scan. The loop invariant ties the parts pushed so far to the pieces consumed so far. |
| ContentEditor.ScanRound | src/components/RichContentEditor.tsx:36-66 | One round of the `exec` loop. The scan goes on after the marker. The parts grow by the non-empty text before the marker, if any, then by the marker's image, each numbered by its position. |
| ContentEditor.Decode | src/components/RichContentEditor.tsx:22-80 | `parseContent`'s result: one empty part for a blank document, else the labelled scan pieces, else the whole document as one part. Its properties are `DecodeShape`, `RoundTrip` and `RoundTripExact`. |
| ContentEditor.PartsToMarkdown | src/components/RichContentEditor.tsx:83-90 | `partsToMarkdown`: text parts as they are, image parts as `![Image](url)`, joined in order. Its properties are `RoundTrip` and `MirrorsMarkdown`. |
| ContentEditor.DecodeShape | src/components/RichContentEditor.tsx:23-77 | Decoding never gives an empty list. A blank document gives one empty text part with id `initial`. Otherwise there is one part per scan piece, in order: image parts hold the markers' urls, text parts are non-empty and never adjacent, and each id is `text-k` or `image-k` for the part's own position `k`. |
| ContentEditor.DecodeIdsDistinct | src/components/RichContentEditor.tsx:44-66 | Decoded ids are pairwise distinct. |
| ContentEditor.RoundTrip | src/components/RichContentEditor.tsx:83-90 | Encoding a decoded document gives the document with every alt text replaced by `Image`. A blank document comes back empty. |
| ContentEditor.RoundTripExact | src/components/RichContentEditor.tsx:23-90 | The round trip gives the document back exactly when all alt texts are `Image` and the document is empty or not blank. |
| ContentEditor.MirrorsMarkdown | src/components/RichContentEditor.tsx:84-89 | Parts that write back, one by one, the same text as the pieces give the same document once joined. |
| ContentEditor.FindIndex | src/components/RichContentEditor.tsx:118 | `findIndex` gives -1 or a position of the list. |
| ContentEditor.FindIndexFirst | src/components/RichContentEditor.tsx:118 | `findIndex`: -1 exactly when no part has the id. Otherwise the result is the first position holding it. |
| ContentEditor.InsertedAfter | src/components/RichContentEditor.tsx:116-139 | The list `insertImageAfterPart` hands to `updateContent`: the image spliced in after `afterIndex`, then the gap part when the code's test holds. Its properties are stated by the `InsertedAfter…` lemmas below. |
| ContentEditor.GapWanted | src/components/RichContentEditor.tsx:130 | The code's gap test, read on the list with the image already spliced in. |
| ContentEditor.NeedsGap | src/components/RichContentEditor.tsx:130 | The same gap test read on the original list: the image lands just before the last original part, or the part it displaces is an image. `InsertedAfterShape` proves that the gap part is added exactly then. |
| ContentEditor.Splice | src/components/RichContentEditor.tsx:123-135 | `splice(i, 0, x)` on a copy makes the list one longer. |
| ContentEditor.SpliceShape | src/components/RichContentEditor.tsx:123-135 | The spliced list holds the old prefix, then `x` at `i`, then the old suffix. |
| ContentEditor.SpliceParts | src/components/RichContentEditor.tsx:123-135 | Splicing adds exactly `x`, as a multiset. |
| ContentEditor.InsertedAfterShape | src/components/RichContentEditor.tsx:116-139 | The new image sits at `afterIndex + 1` and carries the first clock reading. The parts before it and after it are the original ones, in order. An empty text part carrying the second clock reading follows the image exactly when `NeedsGap` holds. The length grows by one or two. |
| ContentEditor.InsertedAfterParts | src/components/RichContentEditor.tsx:116-139 | As a multiset, an insertion adds the image and possibly one empty text part, and removes nothing. |
| ContentEditor.InsertedAfterGrows | src/components/RichContentEditor.tsx:116-139 | An insertion always lengthens the list. |
| ContentEditor.InsertedAfterKeeps | src/components/RichContentEditor.tsx:116-139 | After an insertion every old part is still there, and so is the new image. |
| ContentEditor.InsertedAfterImages | src/components/RichContentEditor.tsx:116-139 | An insertion adds no image url other than the inserted one. |
| ContentEditor.InsertedAfterEnds | src/components/RichContentEditor.tsx:118-136 | An unknown id puts the image first. Inserting after the last part appends the image with no gap. |
| ContentEditor.TextChanged | src/components/RichContentEditor.tsx:181-186 | Only parts with the id get the new text. Length, order, kinds and ids are unchanged. |
| ContentEditor.TextChangedTwice | src/components/RichContentEditor.tsx:181-186 | Two text changes to one id equal the last one alone. |
| ContentEditor.WithoutIdMembers | src/components/RichContentEditor.tsx:189 | The filter keeps exactly the parts with another id. |
| ContentEditor.WithoutIdAppend | src/components/RichContentEditor.tsx:189 | The filter distributes over concatenation, so the kept parts stay in order. |
| ContentEditor.WithoutIdAbsent | src/components/RichContentEditor.tsx:189 | Filtering an id that is not present changes nothing. |
| ContentEditor.Removed | src/components/RichContentEditor.tsx:188-199 | The result starts with the filtered parts. A fresh empty text part is appended exactly when none of them is text, so at least one text part always remains. |
| ContentEditor.Editor.constructor | src/components/RichContentEditor.tsx:93-96 | Once the mount effect has run, the parts are the decoded `content` prop, at least one part exists, and nothing has been reported yet. |
| ContentEditor.WithoutId | src/components/RichContentEditor.tsx:189 | The filter never lengthens the list. |
| ContentEditor.Editor.ContentChanged | src/components/RichContentEditor.tsx:93-96 | A later `content` prop is parsed again: the parts become `Decode` of it, so a reported document fed back replaces the editor's own parts (an empty gap part and the `image-<now>` ids are lost; `DecodeShape` gives non-empty text parts and positional ids). Nothing is reported. |
| ContentEditor.Editor.UpdateContent | src/components/RichContentEditor.tsx:99-103 | The new parts are shown, and their document is appended to what was reported to `onChange`. |
| ContentEditor.Editor.InsertImageAfterPart | src/components/RichContentEditor.tsx:116-139 | The splices on the copied array give `InsertedAfter` of the old parts. The image id and the gap id come from the two separate `Date.now()` readings (lines 126 and 134). The new list is reported. |
| ContentEditor.Editor.InsertImages | src/components/RichContentEditor.tsx:141-170 | In the intended form of the paste and drop loops, each file's insertion sees the list the previous one left. The parts end as `Inserts` of the old parts. One document is reported per file, in order (`InsertsReports`). |
| ContentEditor.Editor.HandleDrop | src/components/RichContentEditor.tsx:158-170 | The dropped files go after the part that was last at the drop. Every dropped image is in the resulting list. The reports are those of `InsertImages`. |
| ContentEditor.Inserts | src/components/RichContentEditor.tsx:141-170 | The intended multi-file insertion: each file is inserted into the list the previous one left. |
| ContentEditor.InsertsReports | src/components/RichContentEditor.tsx:141-170 | One reported document per file. |
| ContentEditor.InsertsPrefix | src/components/RichContentEditor.tsx:141-170 | One file more is one more `InsertedAfter` on the list so far, and one more report, of the new list's document. |
| ContentEditor.FoldKeeps | src/components/RichContentEditor.tsx:141-170 | The intended insertions keep every original part and every file's image part. |
| ContentEditor.InsertsKeepImages | src/components/RichContentEditor.tsx:141-170 | After the intended insertions, every file's url is an image of the list. |
| ContentEditor.StaleInserts | src/components/RichContentEditor.tsx:116-170 | The paste and drop loops as written: each awaited call splices into the `parts` of the render that created the handler, and replaces the list left by the previous call. |
| ContentEditor.StaleInsertsLast | src/components/RichContentEditor.tsx:116-170 | As written, the final list is one insertion of the last file into the stale list. |
| ContentEditor.StaleInsertsLoseImage | src/components/RichContentEditor.tsx:116-170 | As written, dropping two or more files loses the first file's image whenever its url differs from the last one's and the list did not already hold that url. |
| ContentEditor.Editor.HandleTextChange | src/components/RichContentEditor.tsx:181-186 | The parts become `TextChanged` of the old parts. The new list is reported. |
| ContentEditor.Editor.RemoveImage | src/components/RichContentEditor.tsx:188-199 | The filter and the conditional push give `Removed` of the old parts. The new list is reported. |
| ContentRenderer.CollectSegments | src/components/RichContentRenderer.tsx:18-54 | The `exec` loop produces what the scan gives after blank text runs are dropped and alt texts defaulted. |
| ContentRenderer.RenderContent | src/components/RichContentRenderer.tsx:11-63 | The collected segments, or the whole content as one `text-only` segment when none was collected. |
| ContentRenderer.Keep | src/components/RichContentRenderer.tsx:22-51 | The scan pieces as segments: blank text runs are dropped, and image alts are defaulted. `KeepOrdered`, `KeepAppend` and `SegmentsDistinctKeys` state its properties. |
| ContentRenderer.Segments | src/components/RichContentRenderer.tsx:11-63 | The segments `renderContent` produces. `SegmentsTextOnly` and `SegmentsPlain` state its cases. |
| ContentRenderer.RenderLine | src/components/RichContentRenderer.tsx:95-121 | One line of `renderTextWithBasicMarkdown`. `RenderLineCases` states its cases in both directions. |
| ContentRenderer.SegmentsTextOnly | src/components/RichContentRenderer.tsx:57-63 | The output is never empty. It is the single `text-only` segment exactly when the content has no marker and is blank. |
| ContentRenderer.SegmentsDistinctKeys | src/components/RichContentRenderer.tsx:26-50 | Segment keys are pairwise distinct, and every image segment has a non-empty alt text. |
| ContentRenderer.KeepOrdered | src/components/RichContentRenderer.tsx:22-51 | The keys' source offsets strictly increase along the output, and no kept text segment is blank. |
| ContentRenderer.SegmentsPlain | src/components/RichContentRenderer.tsx:44-54 | Content with no marker and not blank is one text segment keyed `text-0`. |
| ContentRenderer.KeepAppend | src/components/RichContentRenderer.tsx:18-54 | The segment filter distributes over concatenation. |
| ContentRenderer.RenderText | src/components/RichContentRenderer.tsx:89-91 | One block per line of `split('\n')`, each the line's own rendering. |
| ContentRenderer.RenderTextCount | src/components/RichContentRenderer.tsx:89-91 | A text with `n` line feeds renders as `n + 1` blocks. |
| ContentRenderer.RenderLineCases | src/components/RichContentRenderer.tsx:95-121 | Both directions: h1, h2 and h3 exactly on the `# `, `## ` and `### ` prefixes, a line break exactly on a blank line, and a paragraph of the inline substitution otherwise. Never an image. |
| Markdown.Heading | src/components/RichContentRenderer.tsx:95-103 | A header exactly on the three prefixes. The first matching rule wins, with 2, 3 or 4 characters cut off. |
| Markdown.HeadingNotBlank | src/components/RichContentRenderer.tsx:95-108 | A header line is never blank, so the header rules never hide a line break. |
| Markdown.ImageAlt | src/components/RichContentRenderer.tsx:32 | `alt \|\| 'Image'` is never empty and keeps a non-empty alt. |
| Markdown.CloseAt | src/components/RichContentRenderer.tsx:112 | When the lazy group closes, the closing delimiter sits at the stop position. |
| Markdown.CloseAtFirst | src/components/RichContentRenderer.tsx:112 | The lazy group stops at the first closing delimiter: no earlier position starts one or holds a line terminator. |
| Markdown.Replace | src/components/RichContentRenderer.tsx:111-114 | A global lazy `replace` of `d(.*?)d`. `ReplaceAbsent`, `ReplacePrefix` and `ReplaceUnfold` state its behaviour. |
| Markdown.Inline | src/components/RichContentRenderer.tsx:111-114 | The bold, italic and code substitutions, in that order. `InlinePlain`, `InlineBold` and `InlineCode` state what they give. |
| Markdown.ReplaceAbsent | src/components/RichContentRenderer.tsx:111-114 | A line without the delimiter's character passes through a substitution unchanged. |
| Markdown.ReplacePrefix | src/components/RichContentRenderer.tsx:111-114 | Text before the first delimiter character is copied as it is. |
| Markdown.ReplaceUnfold | src/components/RichContentRenderer.tsx:111-114 | Leftmost, lazy matching: the first delimiter pairs with the next one on the line, and the span between them is wrapped. |
| Markdown.InlinePlain | src/components/RichContentRenderer.tsx:111-114 | A line with no `*` and no backtick is unchanged by the inline chain. |
| Markdown.InlineBold | src/components/RichContentRenderer.tsx:112 | `x**y**z` over plain `x`, `y`, `z` renders as `x<strong>y</strong>z`. |
| Markdown.InlineCode | src/components/RichContentRenderer.tsx:114 | `` x`y`z `` over plain `x`, `y`, `z` renders as `x<code>y</code>z`. |
| TextRenderer.IsHtml | src/components/RichTextRenderer.tsx:12 | The HTML test: the content holds both `<` and `>`. |
| TextRenderer.PreviewSource | src/components/RichTextRenderer.tsx:16-20 | The markdown preview before the cut: markers deleted, formatting deleted, line-feed runs made spaces, trimmed. |
| TextRenderer.MarkdownPreview | src/components/RichTextRenderer.tsx:16-24 | The markdown preview cut to `maxLength` plus `...`. `MarkdownPreviewClean` states its bounds. |
| TextRenderer.RemoveFormatting | src/components/RichTextRenderer.tsx:18 | The result has no `#`, `*` or backtick, and is no longer than the input. |
| TextRenderer.RemoveFormattingAppend | src/components/RichTextRenderer.tsx:18 | The deletion distributes over concatenation, so all other characters stay in order. |
| TextRenderer.RemoveFormattingPlain | src/components/RichTextRenderer.tsx:18 | Text without formatting characters is unchanged. |
| TextRenderer.SkipNewlines | src/components/RichTextRenderer.tsx:19 | Exactly the leading run of line feeds is dropped. |
| TextRenderer.CollapseNewlines | src/components/RichTextRenderer.tsx:19 | The result holds no line feed and is no longer than the input. |
| TextRenderer.CollapseRun | src/components/RichTextRenderer.tsx:19 | A maximal run of line feeds becomes exactly one space, and the text before it is kept. |
| TextRenderer.CollapsePlain | src/components/RichTextRenderer.tsx:19 | Text without line feeds is unchanged. |
| TextRenderer.CollapseChars | src/components/RichTextRenderer.tsx:19 | Every output character is a space or comes from the input. |
| TextRenderer.CollapseClean | src/components/RichTextRenderer.tsx:18-19 | After the formatting deletion and the collapse, no formatting character and no line feed remains. |
| TextRenderer.TrimTruncateClean | src/components/RichTextRenderer.tsx:20-24 | Trimming and truncating keep a clean text clean. |
| TextRenderer.MarkdownPreviewClean | src/components/RichTextRenderer.tsx:16-24 | The markdown preview never holds `#`, `*`, a backtick or a line feed and is at most `maxLength + 3` long. It is the flattened text (`PreviewSource`) when that fits, else its first `maxLength` characters plus `...`. |
| TextRenderer.RenderBasicMarkdown | src/components/RichTextRenderer.tsx:71-74 | One block per line, each the line's own classification. |
| TextRenderer.RenderBasicMarkdownCount | src/components/RichTextRenderer.tsx:72 | `n` line feeds give `n + 1` blocks. |
| TextRenderer.BasicLine | src/components/RichTextRenderer.tsx:74-119 | One line of `renderBasicMarkdown`. `BasicLineCases` states its cases. |
| TextRenderer.BasicLineCases | src/components/RichTextRenderer.tsx:74-119 | A line becomes an image exactly when it is neither a header nor blank and holds a marker. It then shows the first marker, with its alt defaulted, and drops the surrounding text. Every other line is rendered as the body renderer renders it. |
| TextRenderer.Render | src/components/RichTextRenderer.tsx:12-68 | What `RichTextRenderer` shows. `RenderCases` states its four cases. |
| TextRenderer.RenderCases | src/components/RichTextRenderer.tsx:12-68 | Four cases, each exactly under its condition: markdown preview, HTML preview, raw HTML passed through unchanged, and a line-by-line rendering. The HTML preview is at most 153 characters and is the whole text when that is at most 150. |
| BlogPost.PreviewText | src/components/BlogPost.tsx:34-58 | `getPreviewText`, which the component defines but never calls: the card body is `RichTextRenderer` (line 119). `PreviewTextAgrees` shows that the two texts agree at the default length. |
| BlogPost.PreviewTextAgrees | src/components/BlogPost.tsx:34-58 | With the default length of 150, the card's preview text is exactly what the renderer shows in preview mode. Content is HTML exactly when the HTML branch is taken. |
| BlogPost.PreviewTextBounds | src/components/BlogPost.tsx:34-58 | The preview is at most `maxLength + 3` long. An HTML text that fits is shown whole. A markdown preview has no formatting character and no line feed. |
| BlogPost.PreviewImage | src/components/BlogPost.tsx:61-68 | `getPreviewImage`. `PreviewImageCases` states its cases. |
| BlogPost.PreviewImageCases | src/components/BlogPost.tsx:61-68 | The first marker's url wins and is never empty, then `images[0]`. There is no image exactly when there is neither. |
| BlogPost.CoverDisplay | src/components/BlogPost.tsx:76-90 | Nothing for a missing or empty cover, a colour block exactly for a leading `#`, and otherwise an image of the cover itself. |
| BlogPost.CardOf | src/components/BlogPost.tsx:70-133 | The parts of the rendered card. `CardRules` states its rules. |
| BlogPost.CardRules | src/components/BlogPost.tsx:74-133 | The updated date shows exactly when it differs from the creation date, and the cover exactly for a non-empty cover. The read-more footer shows exactly in preview mode. The inline image shows exactly in preview mode when the content has a marker or the first listed image is non-empty: it is the first marker's url, else that image. A preview body holds the preview text at the default length. Otherwise HTML content passes through unchanged and markdown is rendered as blocks. |
| BlogList.KeyTarget | src/components/BlogList.tsx:38-46 | The cursor after a key press. `KeyTargetSpec` states its rules. |
| BlogList.KeyTargetSpec | src/components/BlogList.tsx:38-46 | ArrowUp moves up only from above the top, ArrowDown moves down only above the bottom, and other keys do nothing. The cursor stays in range. |
| BlogList.KeyDownUp | src/components/BlogList.tsx:38-46 | Down then up returns to the start whenever down moved. |
| BlogList.WheelTarget | src/components/BlogList.tsx:62-66 | The cursor an unlocked wheel event moves to. `WheelTargetSpec` states its rules. |
| BlogList.WheelTargetSpec | src/components/BlogList.tsx:62-66 | The wheel moves at most one step, in the direction of the sign of `deltaY`, and never for 0. The cursor stays in range. |
| BlogList.Navigator.constructor | src/components/BlogList.tsx:20 | The slideshow starts on the first post, unlocked, and the cursor is in range. |
| BlogList.Navigator.KeyDown | src/components/BlogList.tsx:38-50 | The cursor becomes the key's target and the count is unchanged. A move re-installs the unlocked wheel handler. |
| BlogList.Navigator.Wheel | src/components/BlogList.tsx:54-75 | A locked handler ignores the event. An unlocked one moves to the wheel target and stays locked exactly when the cursor did not move. The cursor stays in range. |
| BlogList.Navigator.ReleaseLock | src/components/BlogList.tsx:68-70 | The cooldown unlocks and changes nothing else. |
| BlogList.Navigator.MoveTo | src/components/BlogList.tsx:75 | Setting the cursor, where a change re-runs the effect that installs a fresh unlocked handler. |
| BlogList.Navigator.PrevButton | src/components/BlogList.tsx:263-265 | The up button acts as ArrowUp. |
| BlogList.Navigator.NextButton | src/components/BlogList.tsx:271-273 | The down button acts as ArrowDown. |
| BlogList.Navigator.Indicator | src/components/BlogList.tsx:119-122 | A dot click puts the cursor on that post. |
| BlogList.Navigator.PrevDisabled | src/components/BlogList.tsx:265 | The up button is disabled exactly when ArrowUp would not move. |
| BlogList.Navigator.NextDisabled | src/components/BlogList.tsx:273 | The down button is disabled exactly when ArrowDown would not move. |
| BlogList.Place | src/components/BlogList.tsx:143-184 | The placement if-chain for one card. `PlaceTable` and the lemmas after it state its properties. |
| BlogList.PlaceTable | src/components/BlogList.tsx:143-184 | By distance: 0 is centred, opacity 1, z 10. 1 is ±120%, opacity 0.6, z 5. 2 is ±170%, opacity 0.4, z 3. Further cards are hidden at opacity 0, z 0. Earlier cards go up. |
| BlogList.PlaceZDecreases | src/components/BlogList.tsx:155-184 | Among shown cards, a closer card is stacked strictly above a farther one. |
| BlogList.PlaceSymmetric | src/components/BlogList.tsx:143-184 | Cards at the same distance before and after the cursor mirror each other. |
| BlogList.PlaceInteractive | src/components/BlogList.tsx:194-196 | Only the card under the cursor takes mouse input and clicks. |
| BlogList.StripTags | src/components/BlogList.tsx:87 | `replace(/<[^>]*>/g, '')`. `StripTagsFree`, `StripTagsPlain` and `StripTagsChars` state its properties. |
| BlogList.StripTagsFree | src/components/BlogList.tsx:87 | After tag stripping no `<` is followed by a `>`. |
| BlogList.StripTagsPlain | src/components/BlogList.tsx:87 | Text without `<` is unchanged. |
| BlogList.StripTagsChars | src/components/BlogList.tsx:87 | Stripping only removes characters. |
| BlogList.CardPreview | src/components/BlogList.tsx:85-89 | The card's `getPreviewText`. `CardPreviewSpec` states its bounds. |
| BlogList.CardPreviewSpec | src/components/BlogList.tsx:85-89 | The card preview is at most 153 characters and holds no tag. It is the stripped and trimmed text itself when that fits in 150. |
| BlogList.ImageBadge | src/components/BlogList.tsx:248-252 | The image count badge. `ImageBadgeSpec` states its cases. |
| BlogList.ImageBadgeSpec | src/components/BlogList.tsx:248-252 | The image badge shows exactly when there are images. It starts with their number and ends in `S` exactly when there are several. |
| BlogList.IsSolidColor | src/components/BlogList.tsx:95-97 | `isSolidColor`: a non-empty value starting with `#`. |
| BlogList.IsValidImageUrl | src/components/BlogList.tsx:91-93 | `isValidImageUrl`: a non-empty value starting with `http` or `data:`. |
| BlogList.Cover | src/components/BlogList.tsx:201-223 | The cover if-chain: colour, then image, then placeholder. `CoverSpec` states its cases. |
| BlogList.CoverSpec | src/components/BlogList.tsx:91-97 | A leading `#` gives a colour even if the value looks like a url. A leading `http` or `data:` gives an image. Otherwise the placeholder shows the title's first three characters, or fewer, upper-cased. |
| BlogEditor.SaveRequest | src/components/BlogEditor.tsx:231-238 | Something is saved exactly when title and content are both non-blank. They pass through unchanged with the images. An empty cover becomes `#808080`, and a non-empty one is kept. |
| BlogEditor.Form.HandleSave | src/components/BlogEditor.tsx:231-238 | The request handed on is `SaveRequest` of the form. Nothing is handed on exactly when the save button is disabled. |
| BlogEditor.CanSave | src/components/BlogEditor.tsx:232 | The save condition: title and content both non-blank. `SaveRequest` states what is then saved. |
| BlogEditor.Form.SaveDisabled | src/components/BlogEditor.tsx:257 | The save button's `disabled` test. `HandleSave` states that it holds exactly when saving does nothing. |
| BlogEditor.WithoutIndex | src/components/BlogEditor.tsx:65-67 | `images.filter((_, i) => i !== index)`. `WithoutIndexSpec` states what it keeps. |
| BlogEditor.WithoutIndexSpec | src/components/BlogEditor.tsx:65-67 | Removing index `i` drops exactly that entry and keeps the rest in order. An index out of range changes nothing. |
| BlogEditor.Form.constructor | src/components/BlogEditor.tsx:15-23 | An edited post's fields, with a missing cover as `''`, or empty fields for a new post. Both search queries start empty. |
| BlogEditor.Form.RemoveImage | src/components/BlogEditor.tsx:65-67 | The images become the filtered list, and nothing else changes. |
| BlogEditor.Acceptable | src/components/BlogEditor.tsx:106-116 | A file is accepted when its type starts with `image/` and it is at most 5 MiB. |
| BlogEditor.ValidFiles | src/components/BlogEditor.tsx:106-116 | The files kept are exactly the acceptable ones: type starts with `image/` and size at most 5 MiB. |
| BlogEditor.ValidFilesAppend | src/components/BlogEditor.tsx:106-116 | The filter distributes over concatenation, so the kept files stay in order. |
| BlogEditor.ValidFilesAll | src/components/BlogEditor.tsx:106-116 | A batch of acceptable files is kept whole. |
| BlogEditor.CompressAll | src/components/BlogEditor.tsx:123-125 | `Promise.all` gives every result in order, or fails exactly when some compression fails. |
| BlogEditor.Form.HandleFileUpload | src/components/BlogEditor.tsx:92-134 | No list, or more than five files, changes nothing. Otherwise the compressed acceptable files are appended after the existing images when there is at least one and all compress. |
| BlogEditor.FoundOrFallback | src/components/BlogEditor.tsx:44-59 | The found url, or on an error status or exception the placeholder url stamped with the clock. |
| BlogEditor.Form.AddImage | src/components/BlogEditor.tsx:29-63 | A blank query is a no-op. Otherwise exactly one url is appended, whatever the outcome, and the query is cleared. |
| BlogEditor.Form.AddCoverImage | src/components/BlogEditor.tsx:162-196 | A blank query is a no-op. Otherwise the cover becomes the found or fallback url and the query is cleared. |
| BlogEditor.Form.HandleCoverImageUpload | src/components/BlogEditor.tsx:198-225 | Only the first file counts. It becomes the cover when it is acceptable and compresses. No list or an empty list changes nothing. |
| App.ThemeName | src/App.tsx:51 | The stored name is `dark` exactly for dark mode. |
| App.ShouldUseDark | src/App.tsx:41 | The start-up theme rule. `StoredThemeWins` and `ToggleRoundTrip` state its properties. |
| App.StoredThemeWins | src/App.tsx:41 | A non-empty stored theme decides alone, whatever the system prefers. |
| App.ToggleRoundTrip | src/App.tsx:41-51 | Re-applying the start-up rule to what a toggle stored gives the mode the toggle set. |
| App.AppState.constructor | src/App.tsx:23-45 | Starts home with nothing cached, selected or edited, not loading, and in the mode the stored theme or the system preference gives. |
| App.AppState.ToggleTheme | src/App.tsx:47-52 | The mode flips and its name is stored. Nothing else changes. |
| App.AppState.LoadBlogs | src/App.tsx:54-68 | The fetched list, or the empty list on failure. Loading ends. |
| App.ReplaceById | src/App.tsx:76 | Same length. Entries with the id become the answer, and all others are unchanged. |
| App.ReplaceByIdKeepsIds | src/App.tsx:76 | With the server's answer carrying the same id, the list keeps its ids in order. |
| App.ReplaceByIdAbsent | src/App.tsx:76 | Replacing an id that is not cached changes nothing. |
| App.RemoveById | src/App.tsx:97 | The filter keeps exactly the posts with another id. |
| App.RemoveByIdAppend | src/App.tsx:97 | The filter distributes over concatenation, so order is kept. |
| App.RemoveByIdAbsent | src/App.tsx:97 | Removing an id that is not cached changes nothing. |
| App.CreateThenDelete | src/App.tsx:81-97 | Deleting a post just prepended restores the list. |
| App.AppState.SaveBlog | src/App.tsx:70-89 | An edit replaces by id and ends the edit. A new post is prepended. Both go home. A failure changes only the loading flag. |
| App.AppState.DeleteBlog | src/App.tsx:91-105 | Unconfirmed, nothing changes. On success the id is filtered out, the view goes home and the selection is cleared. On failure only loading ends. |
| App.AppState.BlogClick | src/App.tsx:107-110 | Selects the post and shows the detail view. |
| App.AppState.EditBlog | src/App.tsx:112-115 | Sets the post being edited and shows the editor. |
| App.AppState.NewPost | src/App.tsx:117-120 | Clears the edit and shows the editor. |
| App.AppState.Cancel | src/App.tsx:122-125 | Clears the edit and goes home. |
| App.AppState.Back | src/App.tsx:127-130 | Clears the selection and goes home. |
| App.AppState.LogoClick | src/App.tsx:145 | Goes home and changes nothing else. |
| App.Shown | src/App.tsx:155-205 | The loading panel exactly while loading. Otherwise the list for home, the editor with the edited post, and the detail view only with a selected post. |
| Server.Key | src/supabase/functions/server/index.tsx:47 | The store key `blog:<id>`. `KeyInjective` states that it is injective. |
| Server.Truthy | src/supabase/functions/server/index.tsx:32 | A string field is truthy when present and non-empty. |
| Server.MissingFields | src/supabase/functions/server/index.tsx:32 | `!title \|\| !content`. `Store.Create` states the 400 it leads to. |
| Server.OrEmpty | src/supabase/functions/server/index.tsx:40 | `images \|\| []`. |
| Server.NewPost | src/supabase/functions/server/index.tsx:36-45 | The post that create stores. `Store.Create` and `UpdateAfterCreate` state its fields. |
| Server.KeyInjective | src/supabase/functions/server/index.tsx:47 | Two ids share a `blog:` key exactly when they are equal. |
| Server.OrNull | src/supabase/functions/server/index.tsx:42 | `x \|\| null` keeps exactly the non-empty strings. |
| Server.Store.constructor | src/supabase/functions/server/index.tsx:47 | An empty store is keyed consistently. |
| Server.Store.Create | src/supabase/functions/server/index.tsx:28-55 | An unreadable body gives 500. A missing or empty title or content gives 400. A store failure gives 500. Each leaves the store unchanged. Otherwise the new post is stored under `blog:<id>` and returned. |
| Server.UpdatedPost | src/supabase/functions/server/index.tsx:72-79 | `id` and `createdAt` are kept. Title, content and images (default `[]`) are overwritten. `updatedAt` is the clock. The cover is the new one, else the stored one, else null. |
| Server.Store.Update | src/supabase/functions/server/index.tsx:58-89 | The body is checked (500, then 400) before the post is looked up (404). Every error leaves the store unchanged. Otherwise only `blog:<id>` changes, to the merged post. |
| Server.UpdateAfterCreate | src/supabase/functions/server/index.tsx:36-79 | An update of a created post keeps its id and creation time, refreshes the update time, and falls back to the created cover. |
| Server.Insert | src/supabase/functions/server/index.tsx:104-107 | Inserting adds exactly the one post, as a multiset. |
| Server.InsertSorted | src/supabase/functions/server/index.tsx:104-107 | Inserting keeps a newest-first list newest first. |
| Server.SortNewestFirst | src/supabase/functions/server/index.tsx:104-107 | The sort is a permutation. |
| Server.SortSorted | src/supabase/functions/server/index.tsx:104-107 | The sort's result is newest first. |
| Server.Store.FetchAll | src/supabase/functions/server/index.tsx:96 | The prefix scan returns every stored post once, and only stored posts. |
| Server.Store.List | src/supabase/functions/server/index.tsx:92-115 | A store failure or a non-array answer gives `[]`. Otherwise every stored post appears exactly once, newest first. |
| Server.Store.Get | src/supabase/functions/server/index.tsx:118-133 | The stored post, 404 when absent, 500 on a store failure. |
| Server.Store.Delete | src/supabase/functions/server/index.tsx:136-153 | 404 with no change when absent. Otherwise only `blog:<id>` is removed. |
| Text.Trim | src/components/RichTextRenderer.tsx:20 | `trim()` gives a slice of the input. Everything cut off is white space, and the result neither starts nor ends with white space. |
| Text.TrimStart | src/components/RichTextRenderer.tsx:20 | Drops exactly a leading run of white space. What is left is a suffix and does not start with white space. |
| Text.TrimEnd | src/components/RichTextRenderer.tsx:20 | Drops exactly a trailing run of white space. What is left is a prefix and does not end with white space. |
| Text.IsBlank | src/components/BlogEditor.tsx:232 | `!s.trim()` holds exactly when every character is white space. |
| Text.Truncate | src/components/RichTextRenderer.tsx:22-24 | Text of at most `n` characters is kept. Longer text becomes its first `n` characters plus `...`, so the result is at most `n + 3` long. |
| Text.Lines | src/components/RichContentRenderer.tsx:89 | `split('\n')`: the pieces between line feeds, never an empty list. `LinesJoin`, `LinesNoBreak` and `LinesCount` state its properties. |
| Text.LinesJoin | src/components/RichContentRenderer.tsx:89 | Joining the pieces of `split('\n')` with line feeds gives the text back. |
| Text.LinesNoBreak | src/components/RichContentRenderer.tsx:89 | No piece of `split('\n')` holds a line feed. |
| Text.LinesCount | src/components/RichContentRenderer.tsx:89 | `n` line feeds give `n + 1` pieces. |
| Text.Prefix | src/components/BlogList.tsx:220 | `substring(0, n)`: the first `n` characters, or all of them when there are fewer. |
| Text.IndexOf | src/components/BlogList.tsx:87 | The first position at or after `from` that holds the character, or the length when there is none. |
| Text.ToUpper | src/components/BlogList.tsx:220 | Same length, and every letter is upper-cased. |
| Text.NatToString | src/components/BlogEditor.tsx:50 | The decimal spelling of the clock value: digits only, with no leading zero, and the digits read back (`DigitsValue`) give the number itself. |

## Left out

- src/components/RichTextEditor.tsx is not part of this model. It works only through the DOM: contentEditable, `execCommand` and the Selection API.
- src/utils/blogApi.ts is not part of this model. Each request's outcome is a parameter of the handler that makes it.
- `compressImage` (canvas drawing, the scale ratio and the JPEG quality) is a function parameter from a file to an optional data URL. The model also does not check that compression runs on each file once.
- The browser's `textContent` of HTML content is a parameter (`htmlText`). HTML rendering passes the string through unchanged.
- The `/unsplash` and `/health` routes, the CORS and logger middleware, `Deno.serve`, and all `console` logging are left out.
- The key-value store module is not shown, so it is an abstract map whose failures are a `fault` flag. Server.Store.Update and Server.Store.Delete take a failure in `kv.get` or `kv.set` as a 500 before the existence check. A failing `kv.set` can leave no partial write.
- Request bodies are parsed JSON or nothing. Fields of a type other than string or string list are left out.
- Server.SortNewestFirst: the model sorts stably and always compares `createdAt`. The source sorts with `Array.prototype.sort` and treats a post with no `createdAt` as equal to every other. Every post the model stores has a `createdAt`. Timestamps are integers in the same order as the ISO strings.
- Server.Store.List: the result is proved to contain every stored post exactly once, newest first. The store's own iteration order is not modelled: the prefix scan takes keys in any order.
- BlogList.Navigator: the 700 ms cooldown timer is the explicit event `ReleaseLock`. `scrollIntoView` and the transition timings are left out. Re-running the effect when the list length changes is left out: the count is fixed for one navigator.
- BlogList.Navigator.Wheel: the handler and its effect's re-subscription are one atomic step. Two wheel events between a cursor change and the effect's re-run are not modelled.
- BlogList.Place: opacity is in tenths, so `0.6 - 0.2` is exactly 4. Scale is always 1 and is left out.
- `formatDate` and `toLocaleDateString` are left out. Dates are compared as the stored values.
- Text.Trim, Text.ToUpper: only ASCII white space and ASCII letters are handled.
- Text.Truncate, Text.Prefix: lengths and cut points count Unicode scalar values (Dafny `char`), not the UTF-16 code units that JavaScript's `length` and `substring` count. Text outside the Basic Multilingual Plane is therefore cut later than in the source, and a surrogate pair is never split. The same holds for everything built on them: TextRenderer.MarkdownPreview, TextRenderer.Render, BlogPost.PreviewText, BlogList.CardPreview and BlogList.Cover.
- App.AppState: every handler is one atomic step. The stale closures of React state, the intermediate `isLoading = true` and the interleaving of two requests are not modelled. The home view's load effect is the separate event `LoadBlogs`.
- App.AppState: `alert` and `confirm` dialogs are left out. `confirm`'s answer is a parameter and alerts have no effect on state.
- BlogEditor.Form: the input setters (`setTitle` and the others), the drag-over flags and the busy flags are left out.
- Drag and drop and paste in the editor: filtering the image files, `getAsFile` and the `FileReader` read are left out, and each file's data URL is a parameter. The loops themselves are modelled twice. `ContentEditor.StaleInserts` follows the code as written: every awaited call splices into the same stale list, so only the last file survives (see "## Findings"). `ContentEditor.Editor.InsertImages` and `ContentEditor.Editor.HandleDrop` are the intended form, where each file is inserted into the list the previous one left.
- src/imports/MacBookPro161.tsx, src/imports/MacBookPro162.tsx, src/components/figma/ImageWithFallback.tsx, src/components/ThemeToggle.tsx and src/components/BlogDetail.tsx are presentational and are not part of this model.
- ContentEditor.Editor: `insertImageAfterPart` reads `parts` after awaiting the file read (lines 117-120). That `parts` is the one captured by the render that created the closure, so an edit made while the file was being read is overwritten. The model applies each insertion atomically to the current parts, and Editor.InsertImageAfterPart does not capture this stale read. The multi-file form of the stale read is the finding below.
- BlogEditor.Form: `addImage` appends to the `images` captured at render time after awaiting the fetch (lines 46, 51 and 58). An upload that lands in between through `setImages(prev => …)` (line 127) is then overwritten. The model applies Form.AddImage atomically to the current images, so this lost update is not modelled.
- ContentEditor.Editor: the state before the mount effect has parsed the `content` prop (an empty list) is not modelled. The constructor is the state after that effect, and `ContentChanged` is the same effect on a later prop.
- ContentEditor.NeedsGap: the gap rule follows the code. An empty text part is added when the image lands just before the original last part (`afterIndex + 1 === parts.length - 1`), not after it. Inserting after the last part adds no gap.
- ContentEditor.RoundTripExact: the exact round trip holds for documents that are not blank, and also for the empty document, which decodes to one empty part and encodes back to the empty string.

## Findings

| source | as written | input that shows it | evidently intended | confidence | as-written member | corrected member |
|---|---|---|---|---|---|---|
| src/components/RichContentEditor.tsx:148-153, 165-168 with 116-139 | `handlePaste` and `handleDrop` await, file by file, the `insertImageAfterPart` of the render that created them. Each call splices into the same captured `parts` and replaces the list the previous call produced. | Drop two image files with different data URLs on an editor whose parts hold no image: the final parts hold only the second image. | Every dropped or pasted image is inserted, each into the list the previous insertion left. | not executed | ContentEditor.StaleInserts, shown by ContentEditor.StaleInsertsLoseImage | ContentEditor.Editor.HandleDrop and ContentEditor.Editor.InsertImages over ContentEditor.Inserts, proved by ContentEditor.InsertsKeepImages |
