/** The post renderer with preview support (src/components/RichTextRenderer.tsx):
    content that looks like HTML is passed through, markdown previews are
    flattened to one short plain line, and full markdown is rendered line by
    line. */
module TextRenderer {
  import opened Text
  import opened Wrappers
  import opened Markers
  import opened Markdown
  import ContentRenderer

  /** `content.includes('<') && content.includes('>')` */
  predicate IsHtml(content: string) {
    Contains(content, '<') && Contains(content, '>')
  }

  /** The characters the preview deletes: `[#*`]`. */
  predicate IsFormatting(c: char) {
    c == '#' || c == '*' || c == '`'
  }

  /** `s.replace(/[#*`]/g, '')` */
  function RemoveFormatting(s: string): (r: string)
    ensures |r| <= |s|
    ensures forall i :: 0 <= i < |r| ==> !IsFormatting(r[i])
  {
    if s == [] then [] else (if IsFormatting(s[0]) then [] else [s[0]]) + RemoveFormatting(s[1..])
  }

  /** Deleting characters keeps everything else, in order: the deletion
      distributes over concatenation and leaves text without them alone. */
  lemma {:induction false} RemoveFormattingAppend(a: string, b: string)
    ensures RemoveFormatting(a + b) == RemoveFormatting(a) + RemoveFormatting(b)
  {
    if a == [] {
      assert a + b == b;
    } else {
      assert (a + b)[0] == a[0] && (a + b)[1..] == a[1..] + b;
      RemoveFormattingAppend(a[1..], b);
    }
  }

  lemma {:induction false} RemoveFormattingPlain(s: string)
    requires forall i :: 0 <= i < |s| ==> !IsFormatting(s[i])
    ensures RemoveFormatting(s) == s
  {
    if s != [] {
      RemoveFormattingPlain(s[1..]);
    }
  }

  /** `s` without its leading run of line feeds. */
  function SkipNewlines(s: string): (r: string)
    ensures |r| <= |s| && r == s[|s| - |r|..]
    ensures forall i :: 0 <= i < |s| - |r| ==> s[i] == '\n'
    ensures r != [] ==> r[0] != '\n'
  {
    if s != [] && s[0] == '\n' then SkipNewlines(s[1..]) else s
  }

  /** `s.replace(/\n+/g, ' ')`: every maximal run of line feeds becomes one
      space. */
  function CollapseNewlines(s: string): (r: string)
    ensures |r| <= |s|
    ensures forall i :: 0 <= i < |r| ==> r[i] != '\n'
    decreases |s|
  {
    if s == [] then []
    else if s[0] == '\n' then [' '] + CollapseNewlines(SkipNewlines(s))
    else [s[0]] + CollapseNewlines(s[1..])
  }

  /** Text before a run of line feeds is kept, the run becomes a single
      space, and collapsing goes on after it. */
  lemma {:induction false} CollapseRun(x: string, n: string, y: string)
    requires forall i :: 0 <= i < |x| ==> x[i] != '\n'
    requires n != [] && forall i :: 0 <= i < |n| ==> n[i] == '\n'
    requires y != [] ==> y[0] != '\n'
    ensures CollapseNewlines(x + n + y) == x + " " + CollapseNewlines(y)
    decreases |x|
  {
    if x == [] {
      assert x + n + y == n + y;
      SkipRun(n, y);
    } else {
      var s := x + n + y;
      assert s[0] == x[0] && s[1..] == x[1..] + n + y;
      CollapseRun(x[1..], n, y);
    }
  }

  lemma {:induction false} SkipRun(n: string, y: string)
    requires forall i :: 0 <= i < |n| ==> n[i] == '\n'
    requires y != [] ==> y[0] != '\n'
    ensures SkipNewlines(n + y) == y
  {
    if n == [] {
      assert n + y == y;
    } else {
      assert (n + y)[0] == '\n' && (n + y)[1..] == n[1..] + y;
      SkipRun(n[1..], y);
    }
  }

  /** Text without line feeds is not changed. */
  lemma {:induction false} CollapsePlain(s: string)
    requires forall i :: 0 <= i < |s| ==> s[i] != '\n'
    ensures CollapseNewlines(s) == s
  {
    if s != [] {
      CollapsePlain(s[1..]);
    }
  }

  /** Collapsing keeps every other character: what comes out is one of
      the input's characters or a space. */
  lemma {:induction false} CollapseChars(s: string)
    ensures forall i :: 0 <= i < |CollapseNewlines(s)| ==> CollapseNewlines(s)[i] == ' ' || CollapseNewlines(s)[i] in s
    decreases |s|
  {
    if s != [] {
      if s[0] == '\n' {
        var t := SkipNewlines(s);
        CollapseChars(t);
        assert forall c :: c in t ==> c in s;
      } else {
        CollapseChars(s[1..]);
        assert forall c :: c in s[1..] ==> c in s;
      }
    }
  }

  /** The text a markdown preview shows before truncation: markers deleted,
      formatting characters deleted, line-feed runs made spaces, trimmed. */
  function PreviewSource(content: string): string {
    Trim(CollapseNewlines(RemoveFormatting(StripMarkers(content))))
  }

  /** The markdown preview text, cut to `maxLength` characters plus `...`. */
  function MarkdownPreview(content: string, maxLength: nat): string {
    Truncate(PreviewSource(content), maxLength)
  }

  /** No formatting character and no line feed. */
  predicate Clean(s: string) {
    forall i :: 0 <= i < |s| ==> !IsFormatting(s[i]) && s[i] != '\n'
  }

  lemma CollapseClean(f: string)
    requires forall i :: 0 <= i < |f| ==> !IsFormatting(f[i])
    ensures Clean(CollapseNewlines(f))
  {
    var c := CollapseNewlines(f);
    CollapseChars(f);
    forall i | 0 <= i < |c| ensures !IsFormatting(c[i]) && c[i] != '\n' {
      if c[i] != ' ' {
        var j :| 0 <= j < |f| && f[j] == c[i];
      }
    }
  }

  lemma TrimTruncateClean(c: string, maxLength: nat)
    requires Clean(c)
    ensures Clean(Truncate(Trim(c), maxLength))
  {
    CleanTrim(c);
    CleanTruncate(Trim(c), maxLength);
  }

  lemma CleanTrim(c: string)
    requires Clean(c)
    ensures Clean(Trim(c))
  {
    var t := Trim(c);
    forall i | 0 <= i < |t| ensures !IsFormatting(t[i]) && t[i] != '\n' {
      TrimChar(c, i);
    }
  }

  lemma CleanTruncate(t: string, maxLength: nat)
    requires Clean(t)
    ensures Clean(Truncate(t, maxLength))
  {
    var r := Truncate(t, maxLength);
    if |t| > maxLength {
      forall i | 0 <= i < |r| ensures !IsFormatting(r[i]) && r[i] != '\n' {
        if i < maxLength { assert r[i] == r[..maxLength][i] == t[i]; } else { assert r[i] == r[maxLength..][i - maxLength]; }
      }
    }
  }

  /** The preview never contains a `#`, `*`, backtick or line feed, is at
      most `maxLength + 3` long, and is the untruncated text when that text
      fits. */
  lemma MarkdownPreviewClean(content: string, maxLength: nat)
    ensures |MarkdownPreview(content, maxLength)| <= maxLength + 3
    ensures Clean(MarkdownPreview(content, maxLength))
    ensures |PreviewSource(content)| <= maxLength ==> MarkdownPreview(content, maxLength) == PreviewSource(content)
    ensures |PreviewSource(content)| > maxLength ==>
              MarkdownPreview(content, maxLength) == PreviewSource(content)[..maxLength] + "..."
  {
    var f := RemoveFormatting(StripMarkers(content));
    CollapseClean(f);
    TrimTruncateClean(CollapseNewlines(f), maxLength);
  }

  /** What the component renders. The HTML preview shows the text the
      browser extracts from the HTML, which is given as `htmlText`. */
  datatype View =
    | PlainPreview(text: string)
    | HtmlPreview(text: string)
    | RawHtml(html: string)
    | MarkdownBlocks(blocks: seq<Block>)

  /** `renderBasicMarkdown` for one line: headers, then blank lines, then
      a line holding a marker anywhere becomes that first marker's image,
      then a paragraph with inline formatting. */
  function BasicLine(line: string): Block {
    match Heading(line)
    case Some(b) => b
    case None =>
      if IsBlank(line) then Br
      else match FindMarker(line, 0)
        case Some(h) => Picture(h.marker.url, ImageAlt(h.marker.alt))
        case None => Para(Inline(line))
  }

  /** One block per line. */
  function RenderBasicMarkdown(text: string): (r: seq<Block>)
    ensures |r| == |Lines(text)|
    ensures forall k :: 0 <= k < |r| ==> r[k] == BasicLine(Lines(text)[k])
  {
    var ls := Lines(text);
    seq(|ls|, k requires 0 <= k < |ls| => BasicLine(ls[k]))
  }

  /** `RichTextRenderer` */
  function Render(content: string, isPreview: bool, htmlText: string): View {
    if isPreview && !IsHtml(content) then PlainPreview(MarkdownPreview(content, 150))
    else if isPreview && IsHtml(content) then HtmlPreview(Truncate(htmlText, 150))
    else if IsHtml(content) then RawHtml(content)
    else MarkdownBlocks(RenderBasicMarkdown(content))
  }

  /** The four cases, each exactly under its condition: previews split on
      the HTML test, non-previews pass HTML through and render markdown
      line by line. */
  lemma RenderCases(content: string, isPreview: bool, htmlText: string)
    ensures Render(content, isPreview, htmlText).PlainPreview? <==> isPreview && !IsHtml(content)
    ensures Render(content, isPreview, htmlText).HtmlPreview? <==> isPreview && IsHtml(content)
    ensures Render(content, isPreview, htmlText).RawHtml? <==> !isPreview && IsHtml(content)
    ensures Render(content, isPreview, htmlText).MarkdownBlocks? <==> !isPreview && !IsHtml(content)
    ensures Render(content, isPreview, htmlText).RawHtml? ==> Render(content, isPreview, htmlText).html == content
    ensures Render(content, isPreview, htmlText).HtmlPreview? ==>
              |Render(content, isPreview, htmlText).text| <= 153 &&
              (|htmlText| <= 150 ==> Render(content, isPreview, htmlText).text == htmlText)
  {
  }

  /** A markdown rendering has one block per line: `n` line feeds give
      `n + 1` blocks. */
  lemma RenderBasicMarkdownCount(text: string)
    ensures |RenderBasicMarkdown(text)| == Count(text, '\n') + 1
  {
    LinesCount(text);
  }

  /** The line classification, both ways: a line becomes an image exactly
      when it is neither a header nor blank and holds a marker, and then it
      shows the first marker found, with its alt text defaulted; every other
      line is rendered as the body renderer renders it. */
  lemma BasicLineCases(line: string)
    ensures BasicLine(line).Picture? <==> Heading(line).None? && !IsBlank(line) && HasMarker(line)
    ensures BasicLine(line).Picture? ==>
              var h := FindMarker(line, 0).value;
              BasicLine(line) == Picture(h.marker.url, ImageAlt(h.marker.alt)) &&
              forall k :: 0 <= k < h.pos ==> MatchAt(line, k).None?
    ensures !BasicLine(line).Picture? ==> BasicLine(line) == ContentRenderer.RenderLine(line)
  {
    NoMarkerSplit(line);
    if Heading(line).Some? {
      HeadingNotBlank(line);
    }
  }
}
