/** The inline image marker `![alt](url)` and the left-to-right scan for it
    that the editor, both renderers and both previews share. The source
    writes the marker as the regular expression `/!\[([^\]]*)\]\(([^)]+)\)/`:
    the alt text holds no `]`, the url is non-empty and holds no `)`. Because
    each group stops at the first closing character, a match at a given
    position is unique, so the regex engine's search is a plain function. */
module Markers {
  import opened Text
  import opened Wrappers

  /** The two capture groups of one match. */
  datatype Marker = Marker(alt: string, url: string)

  /** The text a match covers. */
  function Source(m: Marker): string {
    "![" + m.alt + "](" + m.url + ")"
  }

  /** What the two groups can capture. */
  predicate WellFormed(m: Marker) {
    ']' !in m.alt && m.url != [] && ')' !in m.url
  }

  /** The match of the marker regex that starts exactly at position `i`. */
  function MatchAt(s: string, i: nat): (r: Option<Marker>)
    requires i <= |s|
    ensures r.Some? ==> i + |Source(r.value)| <= |s|
  {
    if i + 1 < |s| && s[i] == '!' && s[i + 1] == '[' then
      var j := IndexOf(s, ']', i + 2);
      if j + 1 < |s| && s[j + 1] == '(' then
        var k := IndexOf(s, ')', j + 2);
        if j + 2 < k < |s| then Some(Marker(s[i + 2..j], s[j + 2..k])) else None
      else None
    else None
  }

  /** Where each character of a marker's source sits. */
  lemma SourceAt(m: Marker)
    ensures |Source(m)| == 5 + |m.alt| + |m.url|
    ensures Source(m)[0] == '!' && Source(m)[1] == '['
    ensures forall t :: 0 <= t < |m.alt| ==> Source(m)[2 + t] == m.alt[t]
    ensures Source(m)[2 + |m.alt|] == ']' && Source(m)[3 + |m.alt|] == '('
    ensures forall t :: 0 <= t < |m.url| ==> Source(m)[4 + |m.alt| + t] == m.url[t]
    ensures Source(m)[4 + |m.alt| + |m.url|] == ')'
  {
  }

  /** A match captures a well-formed marker whose source is the matched text. */
  lemma MatchAtSound(s: string, i: nat)
    requires i <= |s| && MatchAt(s, i).Some?
    ensures WellFormed(MatchAt(s, i).value)
    ensures s[i..i + |Source(MatchAt(s, i).value)|] == Source(MatchAt(s, i).value)
  {
    var m := MatchAt(s, i).value;
    var j := IndexOf(s, ']', i + 2);
    var k := IndexOf(s, ')', j + 2);
    assert m.alt == s[i + 2..j] && m.url == s[j + 2..k];
    forall t | 0 <= t < |m.alt| ensures m.alt[t] != ']' { assert m.alt[t] == s[i + 2 + t]; }
    forall t | 0 <= t < |m.url| ensures m.url[t] != ')' { assert m.url[t] == s[j + 2 + t]; }
    assert s[i..i + 2] == "![";
    assert s[j..j + 2] == "](";
    assert s[k..k + 1] == ")";
    SliceFive(s, i, j, k);
  }

  lemma SliceFive(s: string, i: nat, j: nat, k: nat)
    requires i + 2 <= j && j + 2 <= k < |s|
    ensures s[i..k + 1] == s[i..i + 2] + s[i + 2..j] + s[j..j + 2] + s[j + 2..k] + s[k..k + 1]
  {
  }

  lemma IndexOfAt(s: string, c: char, from: nat, p: nat)
    requires from <= p < |s| && s[p] == c
    requires forall t :: from <= t < p ==> s[t] != c
    ensures IndexOf(s, c, from) == p
  {
  }

  /** The pieces of a marker's source, read off the text it is written in. */
  lemma SourceWindow(s: string, i: nat, m: Marker)
    requires i + |Source(m)| <= |s| && s[i..i + |Source(m)|] == Source(m)
    ensures var p := i + 2 + |m.alt|; var q := p + 2 + |m.url|;
            q < |s| && s[i] == '!' && s[i + 1] == '[' && s[i + 2..p] == m.alt &&
            s[p] == ']' && s[p + 1] == '(' && s[p + 2..q] == m.url && s[q] == ')'
  {
    var n := |Source(m)|;
    var p := i + 2 + |m.alt|;
    var q := p + 2 + |m.url|;
    SourceAt(m);
    SourceGroups(m);
    var w := s[i..i + n];
    assert s[i] == w[0] && s[i + 1] == w[1];
    assert s[p] == w[p - i] && s[p + 1] == w[p + 1 - i] && s[q] == w[q - i];
    WindowSlice(s, i, n, 2, 2 + |m.alt|);
    WindowSlice(s, i, n, 4 + |m.alt|, 4 + |m.alt| + |m.url|);
  }

  /** The two groups, as slices of the marker's source. */
  lemma SourceGroups(m: Marker)
    ensures Source(m)[2..2 + |m.alt|] == m.alt
    ensures Source(m)[4 + |m.alt|..4 + |m.alt| + |m.url|] == m.url
  {
    var r := "![" + m.alt + "](" + m.url;
    assert Source(m) == r + ")";
    assert r[2..2 + |m.alt|] == m.alt;
  }

  /** A slice of a window is a slice of the text it was cut from. */
  lemma WindowSlice(s: string, i: nat, n: nat, a: nat, b: nat)
    requires i + n <= |s| && a <= b <= n
    ensures s[i + a..i + b] == s[i..i + n][a..b]
  {
    var w := s[i..i + n];
    forall t | 0 <= t < b - a ensures s[i + a..i + b][t] == w[a..b][t] {
      assert w[a + t] == s[i + a + t];
    }
  }

  /** A well-formed marker written at `i` is what the regex matches there. */
  lemma MatchAtComplete(s: string, i: nat, m: Marker)
    requires WellFormed(m) && i + |Source(m)| <= |s| && s[i..i + |Source(m)|] == Source(m)
    ensures MatchAt(s, i) == Some(m)
  {
    var p := i + 2 + |m.alt|;
    var q := p + 2 + |m.url|;
    SourceWindow(s, i, m);
    WindowCloses(s, i, m);
    assert p + 2 < q < |s| && s[p + 1] == '(';
  }

  /** In a marker written at `i`, the first `]` after the `![` and the
      first `)` after the `](` are the marker's own. */
  lemma WindowCloses(s: string, i: nat, m: Marker)
    requires WellFormed(m)
    requires var p := i + 2 + |m.alt|; var q := p + 2 + |m.url|;
             q < |s| && s[i + 2..p] == m.alt && s[p] == ']' && s[p + 2..q] == m.url && s[q] == ')'
    ensures IndexOf(s, ']', i + 2) == i + 2 + |m.alt|
    ensures IndexOf(s, ')', i + 4 + |m.alt|) == i + 4 + |m.alt| + |m.url|
  {
    var p := i + 2 + |m.alt|;
    var q := p + 2 + |m.url|;
    forall t | i + 2 <= t < p ensures s[t] != ']' {
      assert s[t] == m.alt[t - i - 2] && m.alt[t - i - 2] in m.alt;
    }
    forall t | p + 2 <= t < q ensures s[t] != ')' {
      assert s[t] == m.url[t - p - 2] && m.url[t - p - 2] in m.url;
    }
    IndexOfAt(s, ']', i + 2, p);
    IndexOfAt(s, ')', p + 2, q);
  }

  /** The regex matches at `i` exactly when a well-formed marker is written
      there, and then it captures that marker's two groups. */
  lemma MatchAtIff(s: string, i: nat, m: Marker)
    requires i <= |s|
    ensures MatchAt(s, i) == Some(m) <==>
            WellFormed(m) && i + |Source(m)| <= |s| && s[i..i + |Source(m)|] == Source(m)
  {
    if MatchAt(s, i) == Some(m) { MatchAtSound(s, i); }
    if WellFormed(m) && i + |Source(m)| <= |s| && s[i..i + |Source(m)|] == Source(m) {
      MatchAtComplete(s, i, m);
    }
  }

  /** A match found by the search: where it starts and what it captured. */
  datatype Hit = Hit(pos: nat, marker: Marker)

  /** `regex.exec(s)` with `lastIndex = from`: the leftmost match at or after
      `from`. */
  function FindMarker(s: string, from: nat): (r: Option<Hit>)
    requires from <= |s|
    ensures r.Some? ==> from <= r.value.pos <= |s| && MatchAt(s, r.value.pos) == Some(r.value.marker)
    ensures r.Some? ==> forall k :: from <= k < r.value.pos ==> MatchAt(s, k).None?
    ensures r.None? ==> forall k :: from <= k <= |s| ==> MatchAt(s, k).None?
    decreases |s| - from
  {
    match MatchAt(s, from)
    case Some(m) => Some(Hit(from, m))
    case None => if from == |s| then None else FindMarker(s, from + 1)
  }

  /** Whether the text holds at least one marker the regex matches. */
  predicate HasMarker(s: string) {
    exists k :: 0 <= k <= |s| && MatchAt(s, k).Some?
  }

  /** One piece of the scan: a run of text between markers, or a marker,
      each with the offset where it starts. */
  datatype Piece = Lit(start: nat, text: string) | Img(start: nat, marker: Marker)

  /** The global scan: from `from`, the text before the next match, the match
      itself, and the scan after it; the text after the last match ends the
      list. */
  function Split(s: string, from: nat): seq<Piece>
    requires from <= |s|
    decreases |s| - from
  {
    match FindMarker(s, from)
    case None => if from < |s| then [Lit(from, s[from..])] else []
    case Some(h) => Before(s, from, h) + [Img(h.pos, h.marker)] + Split(s, After(h))
  }

  /** Where the scan goes next after the hit `h`. */
  function After(h: Hit): nat {
    h.pos + |Source(h.marker)|
  }

  /** The text run before the hit `h`, if there is one. */
  function Before(s: string, from: nat, h: Hit): seq<Piece>
    requires from <= h.pos <= |s|
  {
    if h.pos > from then [Lit(from, s[from..h.pos])] else []
  }

  lemma SplitSome(s: string, from: nat)
    requires from <= |s| && FindMarker(s, from).Some?
    ensures var h := FindMarker(s, from).value;
            After(h) <= |s| &&
            Split(s, from) == Before(s, from, h) + [Img(h.pos, h.marker)] + Split(s, After(h))
  {
    var h := FindMarker(s, from).value;
    assert MatchAt(s, h.pos).Some?;
  }

  lemma SplitNone(s: string, from: nat)
    requires from <= |s| && FindMarker(s, from).None?
    ensures Split(s, from) == if from < |s| then [Lit(from, s[from..])] else []
  {
  }

  /** One turn of the scan, seen from the pieces already taken. */
  lemma ScanStep(s: string, from: nat, done: seq<Piece>, whole: seq<Piece>)
    requires from <= |s| && FindMarker(s, from).Some? && whole == done + Split(s, from)
    ensures var h := FindMarker(s, from).value;
            After(h) <= |s| && whole == done + Before(s, from, h) + [Img(h.pos, h.marker)] + Split(s, After(h))
  {
    SplitSome(s, from);
  }

  /** The end of the scan, seen from the pieces already taken. */
  lemma ScanEnd(s: string, from: nat, done: seq<Piece>, whole: seq<Piece>)
    requires from <= |s| && FindMarker(s, from).None? && whole == done + Split(s, from)
    ensures whole == done + if from < |s| then [Lit(from, s[from..])] else []
  {
    SplitNone(s, from);
  }

  /** The text a piece was cut from. */
  function PieceSource(p: Piece): string {
    match p
    case Lit(_, t) => t
    case Img(_, m) => Source(m)
  }

  /** The text a piece gives back once its alt text is replaced by `Image`. */
  function PieceAsImage(p: Piece): string {
    match p
    case Lit(_, t) => t
    case Img(_, m) => "![Image](" + m.url + ")"
  }

  function Join(ps: seq<Piece>): string {
    if ps == [] then "" else PieceSource(ps[0]) + Join(ps[1..])
  }

  function JoinAsImages(ps: seq<Piece>): string {
    if ps == [] then "" else PieceAsImage(ps[0]) + JoinAsImages(ps[1..])
  }

  /** The text runs only: `s.replace(regex, '')`. */
  function JoinTexts(ps: seq<Piece>): string {
    if ps == [] then "" else (if ps[0].Lit? then ps[0].text else "") + JoinTexts(ps[1..])
  }

  /** `s` with every marker removed. */
  function StripMarkers(s: string): string {
    JoinTexts(Split(s, 0))
  }

  /** `s` with every marker's alt text replaced by `Image`. */
  function WithImageAlts(s: string): string {
    JoinAsImages(Split(s, 0))
  }

  /** Every marker in `s` already has alt text `Image`. */
  predicate AltsAreImage(s: string) {
    forall k :: 0 <= k < |Split(s, 0)| && Split(s, 0)[k].Img? ==> Split(s, 0)[k].marker.alt == "Image"
  }

  lemma {:induction false} JoinAppend(a: seq<Piece>, b: seq<Piece>)
    ensures Join(a + b) == Join(a) + Join(b)
  {
    if a == [] {
      assert a + b == b;
    } else {
      assert (a + b)[0] == a[0];
      assert (a + b)[1..] == a[1..] + b;
      JoinAppend(a[1..], b);
    }
  }

  /** The scan loses nothing: joining the pieces gives the text back. */
  lemma {:induction false} SplitJoin(s: string, from: nat)
    requires from <= |s|
    ensures Join(Split(s, from)) == s[from..]
    decreases |s| - from
  {
    if FindMarker(s, from).None? {
      SplitNone(s, from);
      if from < |s| {
        JoinOne(Lit(from, s[from..]));
      }
    } else {
      var h := FindMarker(s, from).value;
      MatchAtSound(s, h.pos);
      SplitJoin(s, After(h));
      SplitJoinStep(s, from);
    }
  }

  lemma SplitJoinStep(s: string, from: nat)
    requires from <= |s| && FindMarker(s, from).Some?
    requires var h := FindMarker(s, from).value;
             After(h) <= |s| && Join(Split(s, After(h))) == s[After(h)..]
    ensures Join(Split(s, from)) == s[from..]
  {
    var h := FindMarker(s, from).value;
    SplitSome(s, from);
    MatchAtSound(s, h.pos);
    JoinStep(s, from, h, Split(s, After(h)));
  }

  lemma JoinOne(p: Piece)
    ensures Join([p]) == PieceSource(p)
  {
    assert [p][1..] == [];
  }

  lemma JoinStep(s: string, from: nat, h: Hit, rest: seq<Piece>)
    requires from <= h.pos <= After(h) <= |s|
    requires s[h.pos..After(h)] == Source(h.marker) && Join(rest) == s[After(h)..]
    ensures Join(Before(s, from, h) + [Img(h.pos, h.marker)] + rest) == s[from..]
  {
    var pre := Before(s, from, h);
    JoinAppend(pre + [Img(h.pos, h.marker)], rest);
    JoinAppend(pre, [Img(h.pos, h.marker)]);
    assert Join([Img(h.pos, h.marker)]) == Source(h.marker);
    assert Join(pre) == s[from..h.pos];
    SliceThree(s, from, h.pos, After(h));
  }

  lemma SliceThree(s: string, a: nat, b: nat, c: nat)
    requires a <= b <= c <= |s|
    ensures s[a..] == s[a..b] + s[b..c] + s[c..]
  {
  }

  /** The pieces lie in order in the text: offsets strictly increase and
      are never before `from`. */
  predicate Ascending(ps: seq<Piece>, from: nat) {
    (forall k :: 0 <= k < |ps| ==> from <= ps[k].start) &&
    (forall k :: 0 <= k < |ps| - 1 ==> ps[k].start < ps[k + 1].start)
  }

  /** Text runs are never empty and never next to each other; every marker
      is well formed. */
  predicate Alternating(ps: seq<Piece>) {
    (forall k :: 0 <= k < |ps| && ps[k].Lit? ==> ps[k].text != []) &&
    (forall k :: 0 <= k < |ps| - 1 ==> !(ps[k].Lit? && ps[k + 1].Lit?)) &&
    (forall k :: 0 <= k < |ps| && ps[k].Img? ==> WellFormed(ps[k].marker))
  }

  lemma {:induction false} SplitShape(s: string, from: nat)
    requires from <= |s|
    ensures Ascending(Split(s, from), from)
    ensures Alternating(Split(s, from))
    ensures Split(s, from) != [] ==> (Split(s, from)[0].Img? || Split(s, from)[0].start == from)
    decreases |s| - from
  {
    if FindMarker(s, from).None? {
      SplitNone(s, from);
    } else {
      var h := FindMarker(s, from).value;
      SplitSome(s, from);
      var pre := Before(s, from, h);
      var rest := Split(s, After(h));
      SplitShape(s, After(h));
      MatchAtSound(s, h.pos);
      ShapeConcat(pre, h, rest, from);
    }
  }

  lemma ShapeConcat(pre: seq<Piece>, h: Hit, rest: seq<Piece>, from: nat)
    requires pre == [] || (|pre| == 1 && pre[0].Lit? && pre[0].text != [] && from == pre[0].start < h.pos)
    requires from <= h.pos && WellFormed(h.marker)
    requires Ascending(rest, After(h)) && Alternating(rest)
    ensures var ps := pre + [Img(h.pos, h.marker)] + rest;
            Ascending(ps, from) && Alternating(ps) && (ps[0].Img? || ps[0].start == from)
  {
    var t := [Img(h.pos, h.marker)] + rest;
    ImgFirst(h, rest);
    if pre == [] {
      assert pre + [Img(h.pos, h.marker)] + rest == t;
    } else {
      LitFirst(pre[0], t, h.pos);
      assert pre + [Img(h.pos, h.marker)] + rest == [pre[0]] + t;
    }
  }

  /** A marker followed by a well-shaped scan after it is well shaped. */
  lemma ImgFirst(h: Hit, rest: seq<Piece>)
    requires WellFormed(h.marker) && Ascending(rest, After(h)) && Alternating(rest)
    ensures Ascending([Img(h.pos, h.marker)] + rest, h.pos) && Alternating([Img(h.pos, h.marker)] + rest)
  {
    var t := [Img(h.pos, h.marker)] + rest;
    forall k | 0 < k < |t| ensures t[k] == rest[k - 1] {
    }
    forall k | 0 <= k < |t| - 1 ensures t[k].start < t[k + 1].start {
      if k == 0 {
        assert t[1] == rest[0];
      }
    }
  }

  /** A non-empty text run before a well-shaped scan that starts with a
      marker further on is well shaped. */
  lemma LitFirst(p: Piece, t: seq<Piece>, q: nat)
    requires p.Lit? && p.text != [] && p.start < q
    requires t != [] && t[0].Img? && Ascending(t, q) && Alternating(t)
    ensures Ascending([p] + t, p.start) && Alternating([p] + t)
  {
    var u := [p] + t;
    forall k | 0 < k < |u| ensures u[k] == t[k - 1] {
    }
  }

  /** The search finds nothing exactly when the text holds no marker, and
      then the scan is the whole text as one run, or nothing when `s` is
      empty. */
  lemma NoMarkerSplit(s: string)
    ensures !HasMarker(s) <==> FindMarker(s, 0).None?
    ensures !HasMarker(s) ==> Split(s, 0) == if s == [] then [] else [Lit(0, s)]
    ensures HasMarker(s) ==> exists k :: 0 <= k < |Split(s, 0)| && Split(s, 0)[k].Img?
  {
    if FindMarker(s, 0).Some? {
      var h := FindMarker(s, 0).value;
      assert MatchAt(s, h.pos).Some?;
      SplitSome(s, 0);
      assert Split(s, 0)[|Before(s, 0, h)|] == Img(h.pos, h.marker);
    } else {
      SplitNone(s, 0);
    }
  }

  lemma {:induction false} JoinAsImagesWhenImage(ps: seq<Piece>)
    requires forall k :: 0 <= k < |ps| && ps[k].Img? ==> ps[k].marker.alt == "Image"
    ensures JoinAsImages(ps) == Join(ps)
  {
    if ps != [] {
      var tail := ps[1..];
      forall k | 0 <= k < |tail| && tail[k].Img? ensures tail[k].marker.alt == "Image" {
        assert tail[k] == ps[k + 1];
      }
      JoinAsImagesWhenImage(tail);
      if ps[0].Img? {
        ImageSource(ps[0].marker);
      }
    }
  }

  /** A marker whose alt text is `Image` reads as `![Image](url)`. */
  lemma ImageSource(m: Marker)
    requires m.alt == "Image"
    ensures PieceAsImage(Img(0, m)) == PieceSource(Img(0, m))
  {
    assert "![" + m.alt + "](" == "![Image](";
  }

  /** A marker whose alt text is not `Image` reads differently from
      `![Image](url)`, whatever follows either. */
  lemma HeadDiffers(m: Marker, a: string, b: string)
    requires WellFormed(m) && m.alt != "Image"
    ensures "![Image](" + m.url + ")" + a != Source(m) + b
  {
    var x := "![Image](" + m.url + ")" + a;
    var y := Source(m) + b;
    var n := |m.alt|;
    SourceAt(m);
    assert x[2..7] == "Image" && x[7] == ']';
    assert y[2 + n] == ']';
    if n < 5 {
      assert x[2 + n] == "Image"[n] != y[2 + n];
    } else if n == 5 {
      var q :| 0 <= q < 5 && m.alt[q] != "Image"[q];
      assert x[2 + q] == "Image"[q] && y[2 + q] == m.alt[q];
    } else {
      assert y[7] == m.alt[5] != ']';
    }
  }

  lemma PrefixCancel(x: string, a: string, b: string)
    requires a != b
    ensures x + a != x + b
  {
    assert (x + a)[|x|..] == a;
    assert (x + b)[|x|..] == b;
  }

  lemma {:induction false} JoinAsImagesOnlyWhenImage(ps: seq<Piece>, k: nat)
    requires forall i :: 0 <= i < |ps| && ps[i].Img? ==> WellFormed(ps[i].marker)
    requires k < |ps| && ps[k].Img? && ps[k].marker.alt != "Image"
    ensures JoinAsImages(ps) != Join(ps)
  {
    assert JoinAsImages(ps) == PieceAsImage(ps[0]) + JoinAsImages(ps[1..]);
    assert Join(ps) == PieceSource(ps[0]) + Join(ps[1..]);
    if ps[0].Img? && ps[0].marker.alt != "Image" {
      HeadDiffers(ps[0].marker, JoinAsImages(ps[1..]), Join(ps[1..]));
    } else {
      var tail := ps[1..];
      assert tail[k - 1] == ps[k];
      forall i | 0 <= i < |tail| && tail[i].Img? ensures WellFormed(tail[i].marker) {
        assert tail[i] == ps[i + 1];
      }
      JoinAsImagesOnlyWhenImage(tail, k - 1);
      if ps[0].Img? {
        ImageSource(ps[0].marker);
      }
      PrefixCancel(PieceSource(ps[0]), JoinAsImages(tail), Join(tail));
    }
  }

  /** Replacing every alt text by `Image` leaves `s` unchanged exactly when
      every marker's alt text already is `Image`. */
  lemma WithImageAltsIdentity(s: string)
    ensures WithImageAlts(s) == s <==> AltsAreImage(s)
  {
    var ps := Split(s, 0);
    SplitJoin(s, 0);
    SplitShape(s, 0);
    assert s[0..] == s;
    if AltsAreImage(s) {
      JoinAsImagesWhenImage(ps);
    } else {
      var k :| 0 <= k < |ps| && ps[k].Img? && ps[k].marker.alt != "Image";
      JoinAsImagesOnlyWhenImage(ps, k);
    }
  }
}
