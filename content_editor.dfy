/** The block editor's segment codec (src/components/RichContentEditor.tsx):
    a document string is cut into an ordered list of text and image parts
    that the editor shows as text areas and removable image blocks, and the
    list is written back into a document after every edit. */
module ContentEditor {
  import opened Text
  import opened Markers

  datatype PartKind = TextPart | ImagePart

  /** A part's id. The source spells ids as the strings `initial`,
      `text-<n>` and `image-<n>`; two such strings are equal exactly when
      these constructors and their numbers are, so the datatype keeps the
      source's id comparisons. */
  datatype PartId = Initial | TextId(n: nat) | ImageId(n: nat)

  /** One segment: for a text part `content` is its text, for an image part
      the image's url. */
  datatype Part = Part(kind: PartKind, content: string, id: PartId)

  /** The part the scan's `k`-th piece becomes: its id is the number of parts
      pushed before it. */
  function PartOf(p: Piece, k: nat): Part {
    match p
    case Lit(_, t) => Part(TextPart, t, TextId(k))
    case Img(_, m) => Part(ImagePart, m.url, ImageId(k))
  }

  function Label(ps: seq<Piece>): (r: seq<Part>)
    ensures |r| == |ps|
  {
    seq(|ps|, k requires 0 <= k < |ps| => PartOf(ps[k], k))
  }

  /** What `parseContent` returns for a document. */
  function Decode(doc: string): seq<Part> {
    if IsBlank(doc) then [Part(TextPart, "", Initial)]
    else
      var parts := Label(Split(doc, 0));
      if |parts| == 0 then [Part(TextPart, doc, Initial)] else parts
  }

  lemma LabelSnoc(ps: seq<Piece>, p: Piece)
    ensures Label(ps + [p]) == Label(ps) + [PartOf(p, |ps|)]
  {
    assert forall k :: 0 <= k < |ps| ==> (ps + [p])[k] == ps[k];
  }

  /** One round of the `exec` loop, seen from the pieces taken so far: the
      scan goes on after the marker, and the parts grow by the text before the
      marker, if any, then the marker's image, numbered on from the parts
      already pushed. */
  lemma ScanRound(doc: string, last: nat, done: seq<Piece>, whole: seq<Piece>, parts: seq<Part>, h: Hit)
    requires last <= |doc| && FindMarker(doc, last).Some? && FindMarker(doc, last).value == h
    requires whole == done + Split(doc, last) && parts == Label(done)
    ensures last <= h.pos && After(h) <= |doc|
    ensures whole == done + Before(doc, last, h) + [Img(h.pos, h.marker)] + Split(doc, After(h))
    ensures h.pos > last ==>
              doc[last..h.pos] != "" &&
              Label(done + Before(doc, last, h) + [Img(h.pos, h.marker)]) ==
              parts + [Part(TextPart, doc[last..h.pos], TextId(|parts|))] + [Part(ImagePart, h.marker.url, ImageId(|parts| + 1))]
    ensures h.pos <= last ==>
              Label(done + Before(doc, last, h) + [Img(h.pos, h.marker)]) == parts + [Part(ImagePart, h.marker.url, ImageId(|parts|))]
  {
    ScanStep(doc, last, done, whole);
    var pre := Before(doc, last, h);
    if h.pos > last {
      LabelSnoc(done, Lit(last, doc[last..h.pos]));
    } else {
      assert done + pre == done;
    }
    LabelSnoc(done + pre, Img(h.pos, h.marker));
  }

  /** `parseContent`: a blank document becomes one empty part; otherwise the
      scan's parts, or the whole document as one part if there are none. */
  method ParseContent(doc: string) returns (parts: seq<Part>)
    ensures parts == Decode(doc)
  {
    if IsBlank(doc) {
      return [Part(TextPart, "", Initial)];
    }
    parts := ScanParts(doc);
    if |parts| == 0 {
      parts := [Part(TextPart, doc, Initial)];
    }
  }

  /** The `regex.exec` loop of `parseContent`: it pushes the text before each
      marker, then the marker's image, then the text after the last one. */
  method ScanParts(doc: string) returns (parts: seq<Part>)
    ensures parts == Label(Split(doc, 0))
  {
    parts := [];
    var last := 0;
    ghost var whole := Split(doc, 0);
    ghost var done: seq<Piece> := [];
    var found := FindMarker(doc, 0);
    while found.Some?
      invariant last <= |doc|
      invariant found == FindMarker(doc, last)
      invariant whole == done + Split(doc, last)
      invariant parts == Label(done)
      decreases |doc| - last
    {
      var h := found.value;
      ScanRound(doc, last, done, whole, parts, h);
      ghost var next := done + Before(doc, last, h) + [Img(h.pos, h.marker)];
      ghost var parts0 := parts;
      if h.pos > last {
        var before := doc[last..h.pos];
        if before != "" {
          parts := parts + [Part(TextPart, before, TextId(|parts|))];
        }
      }
      assert h.pos > last ==> parts == parts0 + [Part(TextPart, doc[last..h.pos], TextId(|parts0|))];
      assert h.pos <= last ==> parts == parts0;
      parts := parts + [Part(ImagePart, h.marker.url, ImageId(|parts|))];
      assert parts == Label(next);
      done := next;
      last := After(h);
      found := FindMarker(doc, last);
    }
    ScanEnd(doc, last, done, whole);
    if last < |doc| {
      var remaining := doc[last..];
      LabelSnoc(done, Lit(last, remaining));
      parts := parts + [Part(TextPart, remaining, TextId(|parts|))];
      done := done + [Lit(last, remaining)];
    }
  }

  /** How `partsToMarkdown` writes one part back. */
  function PartMarkdown(p: Part): string {
    if p.kind == ImagePart then "![Image](" + p.content + ")" else p.content
  }

  /** `partsToMarkdown`: the parts written back in order and joined. */
  function PartsToMarkdown(parts: seq<Part>): string {
    if parts == [] then "" else PartMarkdown(parts[0]) + PartsToMarkdown(parts[1..])
  }

  /** The ids decoding gives: each part's own position, tagged by its kind. */
  predicate PositionalIds(parts: seq<Part>) {
    forall k :: 0 <= k < |parts| ==>
      parts[k].id == (if parts[k].kind == TextPart then TextId(k) else ImageId(k))
  }

  /** Text parts hold text and never sit next to each other. */
  predicate SeparatedTexts(parts: seq<Part>) {
    (forall k :: 0 <= k < |parts| && parts[k].kind == TextPart ==> parts[k].content != "") &&
    (forall k :: 0 <= k < |parts| - 1 ==> !(parts[k].kind == TextPart && parts[k + 1].kind == TextPart))
  }

  /** Labelling well-shaped pieces gives positional ids and separated
      texts, and keeps each marker's url. */
  lemma LabelShape(ps: seq<Piece>)
    requires Alternating(ps)
    ensures PositionalIds(Label(ps)) && SeparatedTexts(Label(ps))
    ensures forall k :: 0 <= k < |ps| && ps[k].Img? ==> Label(ps)[k] == Part(ImagePart, ps[k].marker.url, ImageId(k))
  {
    var parts := Label(ps);
    assert forall k :: 0 <= k < |ps| ==> (parts[k].kind == TextPart <==> ps[k].Lit?);
  }

  /** A document that is not blank has at least one piece. */
  lemma ScanNonEmpty(doc: string)
    requires !IsBlank(doc)
    ensures Split(doc, 0) != []
  {
    SplitJoin(doc, 0);
    assert doc != [];
  }

  /** Decoding never yields an empty list. A blank document gives one empty
      text part with id `initial`. Any other document gives one part per
      piece of the marker scan: text parts are non-empty and never adjacent,
      image parts hold the markers' urls in order, and every id is its
      part's position. */
  lemma DecodeShape(doc: string)
    ensures |Decode(doc)| >= 1
    ensures IsBlank(doc) ==> Decode(doc) == [Part(TextPart, "", Initial)]
    ensures !IsBlank(doc) ==> |Decode(doc)| == |Split(doc, 0)| && PositionalIds(Decode(doc)) &&
                              SeparatedTexts(Decode(doc))
    ensures !IsBlank(doc) ==> forall k :: 0 <= k < |Decode(doc)| && Split(doc, 0)[k].Img? ==>
                                Decode(doc)[k] == Part(ImagePart, Split(doc, 0)[k].marker.url, ImageId(k))
  {
    if !IsBlank(doc) {
      var ps := Split(doc, 0);
      ScanNonEmpty(doc);
      SplitShape(doc, 0);
      LabelShape(ps);
      assert Decode(doc) == Label(ps);
    }
  }

  /** Decoded ids are pairwise distinct. */
  lemma DecodeIdsDistinct(doc: string)
    ensures forall j, k :: 0 <= j < k < |Decode(doc)| ==> Decode(doc)[j].id != Decode(doc)[k].id
  {
    DecodeShape(doc);
  }

  /** `parts` writes back, part by part, the same text as the pieces `ps`
      once their alt texts are replaced by `Image`. */
  predicate Mirrors(parts: seq<Part>, ps: seq<Piece>) {
    |parts| == |ps| && forall k :: 0 <= k < |ps| ==> PartMarkdown(parts[k]) == PieceAsImage(ps[k])
  }

  lemma {:induction false} MirrorsMarkdown(parts: seq<Part>, ps: seq<Piece>)
    requires Mirrors(parts, ps)
    ensures PartsToMarkdown(parts) == JoinAsImages(ps)
  {
    if parts != [] {
      assert Mirrors(parts[1..], ps[1..]) by {
        forall k | 0 <= k < |ps| - 1 ensures PartMarkdown(parts[1..][k]) == PieceAsImage(ps[1..][k]) {
          assert parts[1..][k] == parts[k + 1] && ps[1..][k] == ps[k + 1];
        }
      }
      MirrorsMarkdown(parts[1..], ps[1..]);
    }
  }

  /** Writing a decoded document back gives the document with every marker's
      alt text replaced by `Image`; a blank document comes back empty. */
  lemma RoundTrip(doc: string)
    ensures PartsToMarkdown(Decode(doc)) == if IsBlank(doc) then "" else WithImageAlts(doc)
  {
    if !IsBlank(doc) {
      var ps := Split(doc, 0);
      ScanNonEmpty(doc);
      assert Decode(doc) == Label(ps);
      LabelMirrors(ps);
      MirrorsMarkdown(Label(ps), ps);
    } else {
      assert PartsToMarkdown(Decode(doc)) == PartMarkdown(Part(TextPart, "", Initial)) + PartsToMarkdown([]);
    }
  }

  /** Labelled pieces write back as the pieces with `Image` alt texts. */
  lemma LabelMirrors(ps: seq<Piece>)
    ensures Mirrors(Label(ps), ps)
  {
    var parts := Label(ps);
    forall k | 0 <= k < |ps| ensures PartMarkdown(parts[k]) == PieceAsImage(ps[k]) {
      assert parts[k] == PartOf(ps[k], k);
    }
  }

  lemma ScanOfEmpty()
    ensures Split("", 0) == []
  {
    assert MatchAt("", 0).None?;
  }

  /** The round trip is exact precisely for documents whose markers all have
      alt text `Image` and that are empty or not blank. */
  lemma RoundTripExact(doc: string)
    ensures PartsToMarkdown(Decode(doc)) == doc <==> AltsAreImage(doc) && (doc == "" || !IsBlank(doc))
  {
    RoundTrip(doc);
    if IsBlank(doc) {
      if doc == "" {
        ScanOfEmpty();
      }
    } else {
      WithImageAltsIdentity(doc);
    }
  }

  /** `parts.findIndex(part => part.id === id)`: the first position holding
      `id`, or -1. */
  function FindIndex(parts: seq<Part>, id: PartId): (r: int)
    ensures -1 <= r < |parts|
  {
    if parts == [] then -1
    else if parts[0].id == id then 0
    else
      var r := FindIndex(parts[1..], id);
      if r == -1 then -1 else r + 1
  }

  /** `FindIndex` is -1 exactly when no part carries the id, and otherwise
      the first position that does. */
  lemma {:induction false} FindIndexFirst(parts: seq<Part>, id: PartId)
    ensures var r := FindIndex(parts, id);
            (r == -1 <==> forall k :: 0 <= k < |parts| ==> parts[k].id != id) &&
            (r >= 0 ==> parts[r].id == id && forall k :: 0 <= k < r ==> parts[k].id != id)
  {
    if parts != [] && parts[0].id != id {
      FindIndexFirst(parts[1..], id);
      assert forall k :: 1 <= k < |parts| ==> parts[k] == parts[1..][k - 1];
    }
  }

  /** Whether `insertImageAfterPart` adds an empty text part after the new
      image, as the code decides it: when the image lands just before the
      last original part, or when the part displaced by it is an image. */
  predicate NeedsGap(parts: seq<Part>, afterIndex: int)
    requires -1 <= afterIndex < |parts|
  {
    afterIndex + 1 == |parts| - 1 || (afterIndex + 1 < |parts| && parts[afterIndex + 1].kind == ImagePart)
  }

  /** The list `insertImageAfterPart` hands to `updateContent`: the image
      spliced in at `afterIndex + 1`, then, when needed, an empty text part
      spliced in right after it. The two new ids come from two readings of
      the clock, `imageNow` and `gapNow`. */
  function InsertedAfter(parts: seq<Part>, afterId: PartId, url: string, imageNow: nat, gapNow: nat): seq<Part> {
    var afterIndex := FindIndex(parts, afterId);
    var withImage := Splice(parts, afterIndex + 1, Part(ImagePart, url, ImageId(imageNow)));
    if GapWanted(parts, withImage, afterIndex) then Splice(withImage, afterIndex + 2, Part(TextPart, "", TextId(gapNow)))
    else withImage
  }

  /** The code's test for the gap part, read on the list with the image
      spliced in: the image sits just before the original last part, or the
      part after the image is an image. */
  predicate GapWanted(parts: seq<Part>, withImage: seq<Part>, afterIndex: int)
    requires 0 <= afterIndex + 2
  {
    afterIndex + 1 == |parts| - 1 || (afterIndex + 2 < |withImage| && withImage[afterIndex + 2].kind == ImagePart)
  }

  /** `splice(i, 0, x)` on a copy. */
  function Splice(s: seq<Part>, i: nat, x: Part): (r: seq<Part>)
    requires i <= |s|
    ensures |r| == |s| + 1
  {
    s[..i] + [x] + s[i..]
  }

  lemma SpliceShape(s: seq<Part>, i: nat, x: Part)
    requires i <= |s|
    ensures var r := Splice(s, i, x);
            |r| == |s| + 1 && r[..i] == s[..i] && r[i] == x && r[i + 1..] == s[i..]
  {
    var r := Splice(s, i, x);
    assert r[..i] == s[..i];
    assert r[i + 1..] == s[i..];
  }

  lemma SpliceParts(s: seq<Part>, i: nat, x: Part)
    requires i <= |s|
    ensures multiset(Splice(s, i, x)) == multiset(s) + multiset{x}
  {
    assert s == s[..i] + s[i..];
  }

  /** What an insertion adds: the image, and possibly an empty text part;
      nothing is removed. */
  lemma InsertedAfterParts(parts: seq<Part>, afterId: PartId, url: string, imageNow: nat, gapNow: nat)
    ensures var m := multiset(InsertedAfter(parts, afterId, url, imageNow, gapNow));
            var base := multiset(parts) + multiset{Part(ImagePart, url, ImageId(imageNow))};
            m == base || m == base + multiset{Part(TextPart, "", TextId(gapNow))}
  {
    var at := FindIndex(parts, afterId) + 1;
    var img := Part(ImagePart, url, ImageId(imageNow));
    var gap := Part(TextPart, "", TextId(gapNow));
    SpliceParts(parts, at, img);
    var w := Splice(parts, at, img);
    var r := InsertedAfter(parts, afterId, url, imageNow, gapNow);
    if GapWanted(parts, w, at - 1) {
      assert r == Splice(w, at + 1, gap);
      SpliceParts(w, at + 1, gap);
    } else {
      assert r == w;
    }
  }

  /** An insertion always lengthens the list. */
  lemma InsertedAfterGrows(parts: seq<Part>, afterId: PartId, url: string, imageNow: nat, gapNow: nat)
    ensures |InsertedAfter(parts, afterId, url, imageNow, gapNow)| > |parts|
  {
    InsertedAfterParts(parts, afterId, url, imageNow, gapNow);
  }

  /** Where the new parts go: the image at `afterIndex + 1`, the empty text
      part right after it exactly when `NeedsGap` holds, and the original
      parts on both sides, in order. */
  lemma InsertedAfterShape(parts: seq<Part>, afterId: PartId, url: string, imageNow: nat, gapNow: nat)
    ensures var r := InsertedAfter(parts, afterId, url, imageNow, gapNow);
            var at := FindIndex(parts, afterId) + 1;
            var gap := NeedsGap(parts, at - 1);
            var g := if gap then 1 else 0;
            |r| == |parts| + 1 + g &&
            r[..at] == parts[..at] &&
            r[at] == Part(ImagePart, url, ImageId(imageNow)) &&
            (gap ==> r[at + 1] == Part(TextPart, "", TextId(gapNow))) &&
            r[at + 1 + g..] == parts[at..]
  {
    var at := FindIndex(parts, afterId) + 1;
    var img := Part(ImagePart, url, ImageId(imageNow));
    var gapPart := Part(TextPart, "", TextId(gapNow));
    var w := Splice(parts, at, img);
    SpliceShape(parts, at, img);
    assert at + 1 < |w| ==> w[at + 1] == parts[at] by {
      if at + 1 < |w| { assert w[at + 1..][0] == parts[at..][0]; }
    }
    if NeedsGap(parts, at - 1) {
      SpliceShape(w, at + 1, gapPart);
      var r := Splice(w, at + 1, gapPart);
      assert r[..at] == r[..at + 1][..at] == w[..at + 1][..at] == parts[..at];
      assert r[at] == r[..at + 1][at] == w[..at + 1][at];
    }
  }

  /** An unknown id puts the image first; inserting after the last part
      appends the image and adds no gap after it. */
  lemma InsertedAfterEnds(parts: seq<Part>, afterId: PartId, url: string, imageNow: nat, gapNow: nat)
    ensures FindIndex(parts, afterId) == -1 ==> InsertedAfter(parts, afterId, url, imageNow, gapNow)[0] == Part(ImagePart, url, ImageId(imageNow))
    ensures FindIndex(parts, afterId) == |parts| - 1 ==>
              InsertedAfter(parts, afterId, url, imageNow, gapNow) == parts + [Part(ImagePart, url, ImageId(imageNow))]
  {
    var r := InsertedAfter(parts, afterId, url, imageNow, gapNow);
    InsertedAfterShape(parts, afterId, url, imageNow, gapNow);
    if FindIndex(parts, afterId) == |parts| - 1 {
      assert r == r[..|parts|] + [r[|parts|]];
    }
  }

  /** An insertion loses nothing: every part is still there, and so is the
      new image. */
  lemma InsertedAfterKeeps(parts: seq<Part>, afterId: PartId, url: string, imageNow: nat, gapNow: nat)
    ensures var r := InsertedAfter(parts, afterId, url, imageNow, gapNow);
            Part(ImagePart, url, ImageId(imageNow)) in r && forall p :: p in parts ==> p in r
  {
    InsertedAfterParts(parts, afterId, url, imageNow, gapNow);
    var r := InsertedAfter(parts, afterId, url, imageNow, gapNow);
    assert Part(ImagePart, url, ImageId(imageNow)) in multiset(r);
    forall p | p in parts ensures p in r {
      assert p in multiset(parts);
      assert p in multiset(r);
    }
  }

  /** An image part with content `url`. */
  predicate HasImage(parts: seq<Part>, url: string) {
    exists p :: p in parts && p.kind == ImagePart && p.content == url
  }

  /** The two `Date.now()` readings of one `insertImageAfterPart` call. */
  datatype Stamps = Stamps(image: nat, gap: nat)

  /** `handleDrop` and `handlePaste` as written: they await, one file after
      another, the `insertImageAfterPart` of the render they were created
      in, and that closure always splices into the same `seen` parts. Each
      call's list replaces the previous one, so `current` ends as the last
      call's list. `stamps` holds each call's two clock readings. */
  function StaleInserts(seen: seq<Part>, current: seq<Part>, afterId: PartId,
                        urls: seq<string>, stamps: seq<Stamps>): seq<Part>
    requires |stamps| == |urls|
    decreases |urls|
  {
    if urls == [] then current
    else StaleInserts(seen, InsertedAfter(seen, afterId, urls[0], stamps[0].image, stamps[0].gap), afterId, urls[1..], stamps[1..])
  }

  /** Only the last file of a drop or a paste survives in the stale form. */
  lemma {:induction false} StaleInsertsLast(seen: seq<Part>, current: seq<Part>, afterId: PartId,
                                            urls: seq<string>, stamps: seq<Stamps>)
    requires |stamps| == |urls| > 0
    decreases |urls|
    ensures StaleInserts(seen, current, afterId, urls, stamps) ==
            InsertedAfter(seen, afterId, urls[|urls| - 1], stamps[|urls| - 1].image, stamps[|urls| - 1].gap)
  {
    if |urls| > 1 {
      var next := InsertedAfter(seen, afterId, urls[0], stamps[0].image, stamps[0].gap);
      assert StaleInserts(seen, current, afterId, urls, stamps) == StaleInserts(seen, next, afterId, urls[1..], stamps[1..]);
      StaleInsertsLast(seen, next, afterId, urls[1..], stamps[1..]);
      assert urls[1..][|urls[1..]| - 1] == urls[|urls| - 1] && stamps[1..][|stamps[1..]| - 1] == stamps[|stamps| - 1];
    }
  }

  /** An insertion adds exactly one image: any image of the result is the
      new one or was there before. */
  lemma InsertedAfterImages(parts: seq<Part>, afterId: PartId, url: string, imageNow: nat, gapNow: nat, x: string)
    requires HasImage(InsertedAfter(parts, afterId, url, imageNow, gapNow), x)
    ensures x == url || HasImage(parts, x)
  {
    InsertedAfterParts(parts, afterId, url, imageNow, gapNow);
    var r := InsertedAfter(parts, afterId, url, imageNow, gapNow);
    var p :| p in r && p.kind == ImagePart && p.content == x;
    assert p in multiset(r);
    if p != Part(ImagePart, url, ImageId(imageNow)) {
      assert p in multiset(parts);
    }
  }

  /** Dropping two or more new images, the first one is lost: the shown
      parts hold no image with its url. */
  lemma StaleInsertsLoseImage(seen: seq<Part>, afterId: PartId, urls: seq<string>, stamps: seq<Stamps>)
    requires |stamps| == |urls| >= 2
    requires urls[0] != urls[|urls| - 1] && !HasImage(seen, urls[0])
    ensures !HasImage(StaleInserts(seen, seen, afterId, urls, stamps), urls[0])
  {
    StaleInsertsLast(seen, seen, afterId, urls, stamps);
    var n := |urls| - 1;
    if HasImage(InsertedAfter(seen, afterId, urls[n], stamps[n].image, stamps[n].gap), urls[0]) {
      InsertedAfterImages(seen, afterId, urls[n], stamps[n].image, stamps[n].gap, urls[0]);
    }
  }

  /** One file's `insertImageAfterPart`, as a step of a multi-file insertion. */
  function InsertStep(afterId: PartId): (seq<Part>, string, Stamps) -> seq<Part> {
    (p: seq<Part>, url: string, st: Stamps) => InsertedAfter(p, afterId, url, st.image, st.gap)
  }

  /** The files `urls` handed to `step` one after another, each into the list
      the previous one left. */
  function Fold(step: (seq<Part>, string, Stamps) -> seq<Part>, parts: seq<Part>, urls: seq<string>, stamps: seq<Stamps>): seq<Part>
    requires |stamps| == |urls|
    decreases |urls|
  {
    if urls == [] then parts
    else Fold(step, step(parts, urls[0], stamps[0]), urls[1..], stamps[1..])
  }

  /** The documents reported along a `Fold`, one per file, each the document
      of the list that step left. */
  function FoldReports(step: (seq<Part>, string, Stamps) -> seq<Part>, parts: seq<Part>, urls: seq<string>, stamps: seq<Stamps>): (r: seq<string>)
    requires |stamps| == |urls|
    ensures |r| == |urls|
    decreases |urls|
  {
    if urls == [] then []
    else
      var next := step(parts, urls[0], stamps[0]);
      [PartsToMarkdown(next)] + FoldReports(step, next, urls[1..], stamps[1..])
  }

  lemma SnocTail<T>(s: seq<T>, x: T)
    requires s != []
    ensures (s + [x])[1..] == s[1..] + [x]
  {
  }

  /** One file more is one more step at the end, and one more report: the
      document of the final list. */
  lemma {:induction false} FoldSnoc(step: (seq<Part>, string, Stamps) -> seq<Part>, parts: seq<Part>,
                                    urls: seq<string>, stamps: seq<Stamps>, url: string, stamp: Stamps)
    requires |stamps| == |urls|
    decreases |urls|
    ensures Fold(step, parts, urls + [url], stamps + [stamp]) == step(Fold(step, parts, urls, stamps), url, stamp)
    ensures FoldReports(step, parts, urls + [url], stamps + [stamp]) ==
            FoldReports(step, parts, urls, stamps) + [PartsToMarkdown(Fold(step, parts, urls + [url], stamps + [stamp]))]
  {
    if urls != [] {
      SnocTail(urls, url);
      SnocTail(stamps, stamp);
      FoldSnoc(step, step(parts, urls[0], stamps[0]), urls[1..], stamps[1..], url, stamp);
    } else {
      assert urls + [url] == [url] && stamps + [stamp] == [stamp];
    }
  }

  /** `FoldSnoc` on the prefixes a loop walks through. */
  lemma FoldPrefix(step: (seq<Part>, string, Stamps) -> seq<Part>, parts: seq<Part>, urls: seq<string>, stamps: seq<Stamps>, i: nat)
    requires |stamps| == |urls| && i < |urls|
    ensures Fold(step, parts, urls[..i + 1], stamps[..i + 1]) == step(Fold(step, parts, urls[..i], stamps[..i]), urls[i], stamps[i])
    ensures FoldReports(step, parts, urls[..i + 1], stamps[..i + 1]) ==
            FoldReports(step, parts, urls[..i], stamps[..i]) + [PartsToMarkdown(Fold(step, parts, urls[..i + 1], stamps[..i + 1]))]
  {
    assert urls[..i + 1] == urls[..i] + [urls[i]] && stamps[..i + 1] == stamps[..i] + [stamps[i]];
    FoldSnoc(step, parts, urls[..i], stamps[..i], urls[i], stamps[i]);
  }

  /** The evident intent of `handleDrop` and `handlePaste`: each file is
      inserted into the list the previous one left. */
  function Inserts(parts: seq<Part>, afterId: PartId, urls: seq<string>, stamps: seq<Stamps>): seq<Part>
    requires |stamps| == |urls|
  {
    Fold(InsertStep(afterId), parts, urls, stamps)
  }

  /** `FoldPrefix` for `Inserts`: the loop's next list is one more
      `InsertedAfter`, and its reports grow by that list's document. */
  lemma InsertsPrefix(parts: seq<Part>, afterId: PartId, urls: seq<string>, stamps: seq<Stamps>, i: nat)
    requires |stamps| == |urls| && i < |urls|
    ensures Inserts(parts, afterId, urls[..i + 1], stamps[..i + 1]) ==
            InsertedAfter(Inserts(parts, afterId, urls[..i], stamps[..i]), afterId, urls[i], stamps[i].image, stamps[i].gap)
    ensures InsertsReports(parts, afterId, urls[..i + 1], stamps[..i + 1]) ==
            InsertsReports(parts, afterId, urls[..i], stamps[..i]) + [PartsToMarkdown(Inserts(parts, afterId, urls[..i + 1], stamps[..i + 1]))]
  {
    FoldPrefix(InsertStep(afterId), parts, urls, stamps, i);
  }

  lemma AppendAssoc<T>(a: seq<T>, b: seq<T>, c: seq<T>)
    ensures a + b + c == a + (b + c)
  {
  }

  /** The documents `onChange` receives during `Inserts`. */
  function InsertsReports(parts: seq<Part>, afterId: PartId, urls: seq<string>, stamps: seq<Stamps>): (r: seq<string>)
    requires |stamps| == |urls|
    ensures |r| == |urls|
  {
    FoldReports(InsertStep(afterId), parts, urls, stamps)
  }

  /** Nothing is lost: every original part and every file's image part is
      in the result. */
  lemma {:induction false} FoldKeeps(afterId: PartId, parts: seq<Part>, urls: seq<string>, stamps: seq<Stamps>)
    requires |stamps| == |urls|
    decreases |urls|
    ensures forall p :: p in parts ==> p in Fold(InsertStep(afterId), parts, urls, stamps)
    ensures forall k :: 0 <= k < |urls| ==> Part(ImagePart, urls[k], ImageId(stamps[k].image)) in Fold(InsertStep(afterId), parts, urls, stamps)
  {
    if urls != [] {
      var next := InsertedAfter(parts, afterId, urls[0], stamps[0].image, stamps[0].gap);
      assert InsertStep(afterId)(parts, urls[0], stamps[0]) == next;
      InsertedAfterKeeps(parts, afterId, urls[0], stamps[0].image, stamps[0].gap);
      FoldKeeps(afterId, next, urls[1..], stamps[1..]);
      forall k | 1 <= k < |urls|
        ensures Part(ImagePart, urls[k], ImageId(stamps[k].image)) in Fold(InsertStep(afterId), parts, urls, stamps)
      {
        assert urls[1..][k - 1] == urls[k] && stamps[1..][k - 1] == stamps[k];
      }
    }
  }

  /** The intended form keeps every dropped image, and does differ from the
      stale one whenever two or more new images are dropped. */
  lemma InsertsKeepImages(parts: seq<Part>, afterId: PartId, urls: seq<string>, stamps: seq<Stamps>)
    requires |stamps| == |urls|
    ensures forall k :: 0 <= k < |urls| ==> HasImage(Inserts(parts, afterId, urls, stamps), urls[k])
  {
    FoldKeeps(afterId, parts, urls, stamps);
    var r := Inserts(parts, afterId, urls, stamps);
    forall k | 0 <= k < |urls| ensures HasImage(r, urls[k]) {
      var p := Part(ImagePart, urls[k], ImageId(stamps[k].image));
      assert p in r && p.kind == ImagePart && p.content == urls[k];
    }
  }

  /** `handleTextChange`: every part carrying `id` gets `text` as content;
      kinds, ids, order and length are unchanged. */
  function TextChanged(parts: seq<Part>, id: PartId, text: string): (r: seq<Part>)
    ensures |r| == |parts|
    ensures forall k :: 0 <= k < |r| ==> r[k].kind == parts[k].kind && r[k].id == parts[k].id
    ensures forall k :: 0 <= k < |r| ==> r[k].content == if parts[k].id == id then text else parts[k].content
  {
    seq(|parts|, k requires 0 <= k < |parts| => if parts[k].id == id then parts[k].(content := text) else parts[k])
  }

  /** The last text change to an id wins, and leaves other ids alone. */
  lemma TextChangedTwice(parts: seq<Part>, id: PartId, a: string, b: string)
    ensures TextChanged(TextChanged(parts, id, a), id, b) == TextChanged(parts, id, b)
  {
    var x := TextChanged(TextChanged(parts, id, a), id, b);
    var y := TextChanged(parts, id, b);
    forall k | 0 <= k < |parts| ensures x[k] == y[k] {
      assert x[k].kind == y[k].kind && x[k].id == y[k].id && x[k].content == y[k].content;
    }
  }

  /** `parts.filter(part => part.id !== id)` */
  function WithoutId(parts: seq<Part>, id: PartId): (r: seq<Part>)
    ensures |r| <= |parts|
  {
    if parts == [] then [] else (if parts[0].id != id then [parts[0]] else []) + WithoutId(parts[1..], id)
  }

  /** The filter keeps exactly the parts with another id. */
  lemma {:induction false} WithoutIdMembers(parts: seq<Part>, id: PartId)
    ensures forall p :: p in WithoutId(parts, id) <==> p in parts && p.id != id
  {
    if parts != [] {
      WithoutIdMembers(parts[1..], id);
      assert parts == [parts[0]] + parts[1..];
    }
  }

  /** The filter keeps order: it distributes over concatenation. */
  lemma {:induction false} WithoutIdAppend(a: seq<Part>, b: seq<Part>, id: PartId)
    ensures WithoutId(a + b, id) == WithoutId(a, id) + WithoutId(b, id)
  {
    if a == [] {
      assert a + b == b;
    } else {
      var head := if a[0].id != id then [a[0]] else [];
      assert (a + b)[0] == a[0] && (a + b)[1..] == a[1..] + b;
      assert WithoutId(a + b, id) == head + WithoutId(a[1..] + b, id);
      WithoutIdAppend(a[1..], b, id);
      AppendAssoc(head, WithoutId(a[1..], id), WithoutId(b, id));
    }
  }

  /** The filter leaves a list without `id` as it is. */
  lemma {:induction false} WithoutIdAbsent(a: seq<Part>, id: PartId)
    requires forall k :: 0 <= k < |a| ==> a[k].id != id
    ensures WithoutId(a, id) == a
  {
    if a != [] {
      WithoutIdAbsent(a[1..], id);
    }
  }

  predicate HasTextPart(parts: seq<Part>) {
    exists k :: 0 <= k < |parts| && parts[k].kind == TextPart
  }

  /** `removeImage`: the parts without `id`, followed by a fresh empty text
      part stamped `now` when nothing or only images would remain. */
  function Removed(parts: seq<Part>, id: PartId, now: nat): (r: seq<Part>)
    ensures |r| >= 1 && HasTextPart(r)
    ensures |r| == |WithoutId(parts, id)| + (if HasTextPart(WithoutId(parts, id)) then 0 else 1)
    ensures r[..|WithoutId(parts, id)|] == WithoutId(parts, id)
    ensures !HasTextPart(WithoutId(parts, id)) ==> r[|r| - 1] == Part(TextPart, "", TextId(now))
  {
    var kept := WithoutId(parts, id);
    if |kept| == 0 || (forall k :: 0 <= k < |kept| ==> kept[k].kind == ImagePart) then
      var r := kept + [Part(TextPart, "", TextId(now))];
      assert r[|kept|].kind == TextPart;
      r
    else
      kept
  }

  /** The editor component's state: the parts it shows, and every document
      it has passed to `onChange`, oldest first. */
  class Editor {
    var parts: seq<Part>
    var emitted: seq<string>

    ghost predicate Valid()
      reads this
    {
      |parts| >= 1
    }

    /** The component once its effect has parsed the `content` prop. */
    constructor (content: string)
      ensures Valid() && parts == Decode(content) && emitted == []
    {
      var decoded := ParseContent(content);
      DecodeShape(content);
      parts := decoded;
      emitted := [];
    }

    /** The same effect when a later render passes a new `content` prop:
      the parts are parsed again from it, and nothing is reported. */
    method ContentChanged(content: string)
      requires Valid()
      modifies this
      ensures Valid() && parts == Decode(content) && emitted == old(emitted)
    {
      var decoded := ParseContent(content);
      DecodeShape(content);
      parts := decoded;
    }

    /** `updateContent`: show the new parts and report their document. */
    method UpdateContent(newParts: seq<Part>)
      modifies this
      ensures parts == newParts && emitted == old(emitted) + [PartsToMarkdown(newParts)]
    {
      parts := newParts;
      emitted := emitted + [PartsToMarkdown(newParts)];
    }

    /** `insertImageAfterPart` once the file has been read as the data url
      `url`; `imageNow` and `gapNow` are the two `Date.now()` readings the
      new ids carry. */
    method InsertImageAfterPart(url: string, afterId: PartId, imageNow: nat, gapNow: nat)
      requires Valid()
      modifies this
      ensures Valid() && parts == InsertedAfter(old(parts), afterId, url, imageNow, gapNow)
      ensures emitted == old(emitted) + [PartsToMarkdown(parts)]
    {
      var afterIndex := FindIndex(parts, afterId);
      var newParts := parts;
      newParts := Splice(newParts, afterIndex + 1, Part(ImagePart, url, ImageId(imageNow)));
      if GapWanted(parts, newParts, afterIndex) {
        newParts := Splice(newParts, afterIndex + 2, Part(TextPart, "", TextId(gapNow)));
      }
      InsertedAfterGrows(parts, afterId, url, imageNow, gapNow);
      UpdateContent(newParts);
    }

    /** `handlePaste` (after `partId`) and `handleDrop` (after the last
      part), in their intended form: the image files' data urls `urls` are
      inserted one after another, each into the list the previous one left.
      One document is reported per file. */
    method InsertImages(urls: seq<string>, afterId: PartId, stamps: seq<Stamps>)
      requires Valid() && |stamps| == |urls|
      modifies this
      ensures Valid() && parts == Inserts(old(parts), afterId, urls, stamps)
      ensures emitted == old(emitted) + InsertsReports(old(parts), afterId, urls, stamps)
    {
      var parts0, emitted0 := parts, emitted;
      var i := 0;
      while i < |urls|
        invariant 0 <= i <= |urls| && Valid()
        invariant parts == Inserts(parts0, afterId, urls[..i], stamps[..i])
        invariant emitted == emitted0 + InsertsReports(parts0, afterId, urls[..i], stamps[..i])
      {
        InsertsPrefix(parts0, afterId, urls, stamps, i);
        AppendAssoc(emitted0, InsertsReports(parts0, afterId, urls[..i], stamps[..i]),
                    [PartsToMarkdown(Inserts(parts0, afterId, urls[..i + 1], stamps[..i + 1]))]);
        InsertImageAfterPart(urls[i], afterId, stamps[i].image, stamps[i].gap);
        i := i + 1;
      }
      assert urls[..i] == urls && stamps[..i] == stamps;
    }

    /** `handleDrop`: the image files go after the part that was last when
      they were dropped. */
    method HandleDrop(urls: seq<string>, stamps: seq<Stamps>)
      requires Valid() && |stamps| == |urls|
      modifies this
      ensures Valid() && parts == Inserts(old(parts), old(parts)[|old(parts)| - 1].id, urls, stamps)
      ensures forall k :: 0 <= k < |urls| ==> HasImage(parts, urls[k])
      ensures emitted == old(emitted) + InsertsReports(old(parts), old(parts)[|old(parts)| - 1].id, urls, stamps)
    {
      var lastPartId := parts[|parts| - 1].id;
      InsertsKeepImages(parts, lastPartId, urls, stamps);
      InsertImages(urls, lastPartId, stamps);
    }

    /** `handleTextChange` */
    method HandleTextChange(id: PartId, text: string)
      requires Valid()
      modifies this
      ensures Valid() && parts == TextChanged(old(parts), id, text)
      ensures emitted == old(emitted) + [PartsToMarkdown(parts)]
    {
      var newParts := TextChanged(parts, id, text);
      UpdateContent(newParts);
    }

    /** `removeImage`; `now` is the `Date.now()` a fresh text part carries. */
    method RemoveImage(id: PartId, now: nat)
      requires Valid()
      modifies this
      ensures Valid() && parts == Removed(old(parts), id, now)
      ensures emitted == old(emitted) + [PartsToMarkdown(parts)]
    {
      var newParts := WithoutId(parts, id);
      if |newParts| == 0 || (forall k :: 0 <= k < |newParts| ==> newParts[k].kind == ImagePart) {
        newParts := newParts + [Part(TextPart, "", TextId(now))];
      }
      UpdateContent(newParts);
    }
  }
}
