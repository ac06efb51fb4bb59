/** The post body renderer (src/components/RichContentRenderer.tsx): the
    content is cut into text and image segments along the same marker scan
    the editor uses, and each text segment is rendered line by line. */
module ContentRenderer {
  import opened Text
  import opened Markers
  import opened Markdown

  /** A segment's React key: `text-<offset>`, `image-<offset>` or
      `text-only`. */
  datatype Key = TextKey(offset: nat) | ImageKey(offset: nat) | TextOnly

  datatype Segment = TextSeg(text: string, key: Key) | ImageSeg(url: string, alt: string, key: Key)

  /** What the loop pushes for one piece of the scan: a text run only when
      it is not blank, a marker always, with its alt text defaulted. */
  function Kept(p: Piece): seq<Segment> {
    match p
    case Lit(o, t) => if IsBlank(t) then [] else [TextSeg(t, TextKey(o))]
    case Img(o, m) => [ImageSeg(m.url, ImageAlt(m.alt), ImageKey(o))]
  }

  function Keep(ps: seq<Piece>): seq<Segment> {
    if ps == [] then [] else Kept(ps[0]) + Keep(ps[1..])
  }

  lemma {:induction false} KeepAppend(a: seq<Piece>, b: seq<Piece>)
    ensures Keep(a + b) == Keep(a) + Keep(b)
  {
    if a == [] {
      assert a + b == b;
    } else {
      assert (a + b)[0] == a[0] && (a + b)[1..] == a[1..] + b;
      KeepAppend(a[1..], b);
    }
  }

  lemma KeepSnoc(ps: seq<Piece>, p: Piece)
    ensures Keep(ps + [p]) == Keep(ps) + Kept(p)
  {
    KeepAppend(ps, [p]);
    assert Keep([p]) == Kept(p) + Keep([]);
  }

  /** The segments `renderContent` produces for `content`. */
  function Segments(content: string): seq<Segment> {
    var kept := Keep(Split(content, 0));
    if kept == [] then [TextSeg(content, TextOnly)] else kept
  }

  /** `renderContent`'s segment list: the collected segments, or the whole
      content as one `text-only` segment when nothing was collected. */
  method RenderContent(content: string) returns (segs: seq<Segment>)
    ensures segs == Segments(content)
  {
    segs := CollectSegments(content);
    if |segs| == 0 {
      segs := [TextSeg(content, TextOnly)];
    }
  }

  /** The `regex.exec` loop of `renderContent`. */
  method CollectSegments(content: string) returns (segs: seq<Segment>)
    ensures segs == Keep(Split(content, 0))
  {
    segs := [];
    var last := 0;
    ghost var whole := Split(content, 0);
    ghost var done: seq<Piece> := [];
    var found := FindMarker(content, 0);
    while found.Some?
      invariant last <= |content|
      invariant found == FindMarker(content, last)
      invariant whole == done + Split(content, last)
      invariant segs == Keep(done)
      decreases |content| - last
    {
      var h := found.value;
      ScanStep(content, last, done, whole);
      ghost var pre := Before(content, last, h);
      if h.pos > last {
        var before := content[last..h.pos];
        assert pre == [Lit(last, before)];
        KeepSnoc(done, Lit(last, before));
        if !IsBlank(before) {
          segs := segs + [TextSeg(before, TextKey(last))];
        }
      } else {
        assert done + pre == done;
      }
      assert segs == Keep(done + pre);
      KeepSnoc(done + pre, Img(h.pos, h.marker));
      var alt := ImageAlt(h.marker.alt);
      segs := segs + [ImageSeg(h.marker.url, alt, ImageKey(h.pos))];
      done := done + pre + [Img(h.pos, h.marker)];
      last := After(h);
      found := FindMarker(content, last);
    }
    ScanEnd(content, last, done, whole);
    if last < |content| {
      var remaining := content[last..];
      KeepSnoc(done, Lit(last, remaining));
      if !IsBlank(remaining) {
        segs := segs + [TextSeg(remaining, TextKey(last))];
      }
      done := done + [Lit(last, remaining)];
    } else {
      assert done + [] == done;
    }
  }

  function KeyOffset(k: Key): int {
    match k
    case TextKey(o) => o
    case ImageKey(o) => o
    case TextOnly => -1
  }

  /** Segments kept from ascending pieces carry strictly ascending offsets,
      none below `from`, and every text segment is not blank. */
  predicate OrderedSegments(segs: seq<Segment>, from: nat) {
    (forall k :: 0 <= k < |segs| ==> from <= KeyOffset(segs[k].key)) &&
    (forall j, k :: 0 <= j < k < |segs| ==> KeyOffset(segs[j].key) < KeyOffset(segs[k].key)) &&
    (forall k :: 0 <= k < |segs| && segs[k].TextSeg? ==> !IsBlank(segs[k].text))
  }

  lemma {:induction false} StartsGrow(ps: seq<Piece>, from: nat, j: nat, k: nat)
    requires Ascending(ps, from) && j < k < |ps|
    ensures ps[j].start < ps[k].start
    decreases k - j
  {
    if j + 1 < k {
      StartsGrow(ps, from, j + 1, k);
    }
  }

  lemma AscendingTail(ps: seq<Piece>, from: nat)
    requires Ascending(ps, from) && ps != []
    ensures Ascending(ps[1..], ps[0].start + 1)
  {
    var tail := ps[1..];
    forall k | 0 <= k < |tail| ensures ps[0].start + 1 <= tail[k].start {
      StartsGrow(ps, from, 0, k + 1);
    }
    forall k | 0 <= k < |tail| - 1 ensures tail[k].start < tail[k + 1].start {
      assert tail[k] == ps[k + 1] && tail[k + 1] == ps[k + 2];
    }
  }

  lemma OrderedCons(head: seq<Segment>, rest: seq<Segment>, o: nat, from: nat)
    requires |head| <= 1 && from <= o && OrderedSegments(rest, o + 1)
    requires forall k :: 0 <= k < |head| ==> KeyOffset(head[k].key) == o
    requires forall k :: 0 <= k < |head| && head[k].TextSeg? ==> !IsBlank(head[k].text)
    ensures OrderedSegments(head + rest, from)
  {
    var r := head + rest;
    forall k | 0 <= k < |r| ensures from <= KeyOffset(r[k].key) && (r[k].TextSeg? ==> !IsBlank(r[k].text)) {
      if k >= |head| { assert r[k] == rest[k - |head|]; }
    }
    forall j, k | 0 <= j < k < |r| ensures KeyOffset(r[j].key) < KeyOffset(r[k].key) {
      assert r[k] == rest[k - |head|];
      if j >= |head| { assert r[j] == rest[j - |head|]; }
    }
  }

  lemma {:induction false} KeepOrdered(ps: seq<Piece>, from: nat)
    requires Ascending(ps, from)
    ensures OrderedSegments(Keep(ps), from)
  {
    if ps != [] {
      AscendingTail(ps, from);
      KeepOrdered(ps[1..], ps[0].start + 1);
      KeptShape(ps[0]);
      assert Keep(ps) == Kept(ps[0]) + Keep(ps[1..]);
      OrderedCons(Kept(ps[0]), Keep(ps[1..]), ps[0].start, from);
    }
  }

  /** One piece keeps at most one segment, keyed by the piece's offset. */
  lemma KeptShape(p: Piece)
    ensures |Kept(p)| <= 1
    ensures forall k :: 0 <= k < |Kept(p)| ==> KeyOffset(Kept(p)[k].key) == p.start
    ensures forall k :: 0 <= k < |Kept(p)| && Kept(p)[k].TextSeg? ==> !IsBlank(Kept(p)[k].text)
  {
  }

  /** The rendered content is never empty; it is the single `text-only`
      segment exactly when the content has no marker and is blank, and
      that segment holds the whole content. */
  lemma SegmentsTextOnly(content: string)
    ensures |Segments(content)| >= 1
    ensures Segments(content)[0].key == TextOnly <==> !HasMarker(content) && IsBlank(content)
    ensures Segments(content)[0].key == TextOnly ==> Segments(content) == [TextSeg(content, TextOnly)]
  {
    var ps := Split(content, 0);
    SplitShape(content, 0);
    KeepOrdered(ps, 0);
    NoMarkerSplit(content);
    if HasMarker(content) {
      var k :| 0 <= k < |ps| && ps[k].Img?;
      KeepHasImage(ps, k);
    } else if !IsBlank(content) {
      assert content != [];
      assert ps == [Lit(0, content)];
      assert Keep(ps) == [TextSeg(content, TextKey(0))] + Keep([]);
    } else if content != [] {
      assert ps == [Lit(0, content)];
      assert Keep(ps) == [] + Keep([]);
    }
  }

  lemma {:induction false} KeepHasImage(ps: seq<Piece>, k: nat)
    requires k < |ps| && ps[k].Img?
    ensures Keep(ps) != []
  {
    assert Keep(ps) == Kept(ps[0]) + Keep(ps[1..]);
    if k == 0 {
      assert Kept(ps[0]) != [];
    } else {
      assert ps[1..][k - 1] == ps[k];
      KeepHasImage(ps[1..], k - 1);
    }
  }

  /** Every segment key is distinct, text segments are never blank and
      image segments always carry a non-empty alt text. */
  lemma SegmentsDistinctKeys(content: string)
    ensures forall j, k :: 0 <= j < k < |Segments(content)| ==> Segments(content)[j].key != Segments(content)[k].key
    ensures forall k :: 0 <= k < |Segments(content)| && Segments(content)[k].ImageSeg? ==> Segments(content)[k].alt != []
  {
    var ps := Split(content, 0);
    SplitShape(content, 0);
    KeepOrdered(ps, 0);
    KeepAlts(ps);
  }

  /** Every image segment carries a non-empty alt text. */
  predicate AltsFilled(segs: seq<Segment>) {
    forall k :: 0 <= k < |segs| && segs[k].ImageSeg? ==> segs[k].alt != []
  }

  lemma {:induction false} KeepAlts(ps: seq<Piece>)
    ensures AltsFilled(Keep(ps))
  {
    if ps != [] {
      KeepAlts(ps[1..]);
      var h := Kept(ps[0]);
      var t := Keep(ps[1..]);
      assert AltsFilled(h);
      assert Keep(ps) == h + t;
      forall k | |h| <= k < |h + t| ensures (h + t)[k] == t[k - |h|] {
      }
    }
  }

  /** A segment without markers and not blank is rendered as the content
      itself, keyed by offset 0. */
  lemma SegmentsPlain(content: string)
    requires !HasMarker(content) && !IsBlank(content)
    ensures Segments(content) == [TextSeg(content, TextKey(0))]
  {
    NoMarkerSplit(content);
    assert content != [];
    assert Keep(Split(content, 0)) == [TextSeg(content, TextKey(0))] + Keep([]);
  }

  /** `renderTextWithBasicMarkdown` for one line: headers first, then blank
      lines, then a paragraph with inline formatting. */
  function RenderLine(line: string): Block {
    match Heading(line)
    case Some(b) => b
    case None => if IsBlank(line) then Br else Para(Inline(line))
  }

  /** One block per line of the text segment. */
  function RenderText(text: string): (r: seq<Block>)
    ensures |r| == |Lines(text)|
    ensures forall k :: 0 <= k < |r| ==> r[k] == RenderLine(Lines(text)[k])
  {
    var ls := Lines(text);
    seq(|ls|, k requires 0 <= k < |ls| => RenderLine(ls[k]))
  }

  /** A line feed separates two rendered lines: a text with `n` line feeds
      renders as `n + 1` blocks. */
  lemma RenderTextCount(text: string)
    ensures |RenderText(text)| == Count(text, '\n') + 1
  {
    LinesCount(text);
  }

  /** The classification, both ways: each block kind is chosen by exactly
      the condition the source tests, in the source's order. */
  lemma RenderLineCases(line: string)
    ensures RenderLine(line).H1? <==> StartsWith(line, "# ")
    ensures RenderLine(line).H2? <==> StartsWith(line, "## ")
    ensures RenderLine(line).H3? <==> StartsWith(line, "### ")
    ensures RenderLine(line).Br? <==> IsBlank(line)
    ensures RenderLine(line).Para? <==> Heading(line).None? && !IsBlank(line)
    ensures RenderLine(line).Para? ==> RenderLine(line).html == Inline(line)
    ensures !RenderLine(line).Picture?
  {
    if Heading(line).Some? {
      HeadingNotBlank(line);
    }
  }
}
