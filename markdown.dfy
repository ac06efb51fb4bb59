/** The pieces of line-by-line markdown rendering that both renderers
    share: the header rules, the default alt text of an image, and the
    inline substitutions for bold, italic and code
    (src/components/RichContentRenderer.tsx:95-114,
    src/components/RichTextRenderer.tsx:78-111). */
module Markdown {
  import opened Text
  import opened Wrappers

  /** One rendered line. */
  datatype Block =
    | H1(text: string)
    | H2(text: string)
    | H3(text: string)
    | Br
    | Picture(src: string, alt: string)
    | Para(html: string)

  /** The three header rules, tried in the source's order: `# `, `## `,
      `### `, each with its marker cut off. */
  function Heading(line: string): (r: Option<Block>)
    ensures r.Some? <==> StartsWith(line, "# ") || StartsWith(line, "## ") || StartsWith(line, "### ")
    ensures StartsWith(line, "# ") ==> r == Some(H1(line[2..]))
    ensures StartsWith(line, "## ") ==> r == Some(H2(line[3..]))
    ensures StartsWith(line, "### ") ==> r == Some(H3(line[4..]))
  {
    assert StartsWith(line, "# ") ==> line[1] == ' ';
    assert StartsWith(line, "## ") ==> line[1] == '#' && line[2] == ' ';
    assert StartsWith(line, "### ") ==> line[1] == '#' && line[2] == '#';
    if StartsWith(line, "# ") then Some(H1(line[2..]))
    else if StartsWith(line, "## ") then Some(H2(line[3..]))
    else if StartsWith(line, "### ") then Some(H3(line[4..]))
    else None
  }

  /** A line with a header marker is never blank. */
  lemma HeadingNotBlank(line: string)
    requires Heading(line).Some?
    ensures !IsBlank(line)
  {
    assert line[0] == '#';
  }

  /** `alt || 'Image'` */
  function ImageAlt(alt: string): (r: string)
    ensures r != []
    ensures alt != [] ==> r == alt
  {
    if alt == [] then "Image" else alt
  }

  /** The characters JavaScript's regex `.` does not match. */
  predicate IsLineTerminator(c: char) {
    c == '\n' || c == '\r' || c as int == 0x2028 || c as int == 0x2029
  }

  /** Where the lazy `(.*?)` before a closing `d` stops, scanning `t` from
      `j`: the first place `d` occurs, unless a character `.` cannot match
      comes first. */
  function CloseAt(t: string, d: string, j: nat): (r: Option<nat>)
    requires j <= |t|
    ensures r.Some? ==> j <= r.value && r.value + |d| <= |t| && t[r.value..r.value + |d|] == d
    decreases |t| - j
  {
    if StartsWith(t[j..], d) then Some(j)
    else if j == |t| || IsLineTerminator(t[j]) then None
    else CloseAt(t, d, j + 1)
  }

  /** The lazy group stops at the first closing delimiter: no position
      before it starts one or holds a line terminator. */
  lemma {:induction false} CloseAtFirst(t: string, d: string, j: nat)
    requires j <= |t| && CloseAt(t, d, j).Some?
    ensures forall i :: j <= i < CloseAt(t, d, j).value ==> !IsLineTerminator(t[i]) && !StartsWith(t[i..], d)
    decreases |t| - j
  {
    if !StartsWith(t[j..], d) {
      CloseAtFirst(t, d, j + 1);
    }
  }

  /** `s.replace(/d(.*?)d/g, open + '$1' + close)` for a delimiter `d`:
      the scan tries a match at each position in turn and, after a match,
      goes on after its closing delimiter. */
  function Replace(s: string, d: string, open: string, close: string): string
    requires |d| >= 1
    decreases |s|
  {
    if s == [] then []
    else if StartsWith(s, d) && CloseAt(s[|d|..], d, 0).Some? then
      var t := s[|d|..];
      var j := CloseAt(t, d, 0).value;
      open + t[..j] + close + Replace(t[j + |d|..], d, open, close)
    else [s[0]] + Replace(s[1..], d, open, close)
  }

  /** Text without the delimiter's first character passes through the scan
      unchanged. */
  lemma {:induction false} ReplacePrefix(x: string, rest: string, d: string, open: string, close: string)
    requires |d| >= 1 && d[0] !in x
    ensures Replace(x + rest, d, open, close) == x + Replace(rest, d, open, close)
    decreases |x|
  {
    if x != [] {
      var s := x + rest;
      assert s[0] == x[0] && s[1..] == x[1..] + rest;
      assert !StartsWith(s, d);
      ReplacePrefix(x[1..], rest, d, open, close);
    } else {
      assert x + rest == rest;
    }
  }

  /** The scan leaves a string without the delimiter alone. */
  lemma ReplaceAbsent(s: string, d: string, open: string, close: string)
    requires |d| >= 1 && d[0] !in s
    ensures Replace(s, d, open, close) == s
  {
    ReplacePrefix(s, [], d, open, close);
    assert s + [] == s;
  }

  /** The match is leftmost and lazy: the first opening delimiter pairs with
      the nearest closing one, and the text between them is wrapped. */
  lemma ReplaceUnfold(x: string, y: string, z: string, d: string, open: string, close: string)
    requires |d| >= 1 && d[0] !in x && d[0] !in y
    requires forall i :: 0 <= i < |y| ==> !IsLineTerminator(y[i])
    ensures Replace(x + d + y + d + z, d, open, close) == x + open + y + close + Replace(z, d, open, close)
  {
    var t := y + d + z;
    assert x + d + y + d + z == x + (d + t);
    ReplacePrefix(x, d + t, d, open, close);
    ReplaceSpan(y, z, d, open, close);
    Regroup(x, open, y, close, Replace(z, d, open, close));
  }

  /** A delimited span at the very start of the text. */
  lemma ReplaceSpan(y: string, z: string, d: string, open: string, close: string)
    requires |d| >= 1 && d[0] !in y
    requires forall i :: 0 <= i < |y| ==> !IsLineTerminator(y[i])
    ensures Replace(d + (y + d + z), d, open, close) == open + y + close + Replace(z, d, open, close)
  {
    var t := y + d + z;
    assert t[..|y| + |d|] == y + d;
    CloseFrom(t, y, d, 0);
    ReplaceMatch(d, t, open, close);
    assert t[..|y|] == y && t[|y| + |d|..] == z;
  }

  lemma Regroup(a: string, b: string, c: string, d: string, e: string)
    ensures a + (b + c + d + e) == a + b + c + d + e
  {
  }

  /** A string that opens with the delimiter and closes it later. */
  lemma ReplaceMatch(d: string, t: string, open: string, close: string)
    requires |d| >= 1 && CloseAt(t, d, 0).Some?
    ensures var j := CloseAt(t, d, 0).value;
            Replace(d + t, d, open, close) == open + t[..j] + close + Replace(t[j + |d|..], d, open, close)
  {
    var s := d + t;
    assert s[|d|..] == t;
    assert s[..|d|] == d;
  }

  lemma {:induction false} CloseFrom(t: string, y: string, d: string, j: nat)
    requires |d| >= 1 && d[0] !in y && j <= |y| && |y| + |d| <= |t| && t[..|y| + |d|] == y + d
    requires forall i :: 0 <= i < |y| ==> !IsLineTerminator(y[i])
    ensures CloseAt(t, d, j) == Some(|y|)
    decreases |y| - j
  {
    if j == |y| {
      assert t[j..][..|d|] == t[..|y| + |d|][|y|..];
    } else {
      assert t[j] == (y + d)[j] == y[j];
      assert t[j..][0] == t[j];
      CloseFrom(t, y, d, j + 1);
    }
  }

  /** The inline formatting chain: bold, then italic, then code. */
  function Inline(line: string): string {
    Replace(Replace(Replace(line, "**", "<strong>", "</strong>"), "*", "<em>", "</em>"), "`", "<code>", "</code>")
  }

  /** A line with no `*` and no backtick is left as it is. */
  lemma InlinePlain(line: string)
    requires '*' !in line && '`' !in line
    ensures Inline(line) == line
  {
    ReplaceAbsent(line, "**", "<strong>", "</strong>");
    ReplaceAbsent(line, "*", "<em>", "</em>");
    ReplaceAbsent(line, "`", "<code>", "</code>");
  }

  /** A bold span between plain text becomes one `<strong>` element. */
  lemma InlineBold(x: string, y: string, z: string)
    requires '*' !in x + y + z && '`' !in x + y + z
    requires forall i :: 0 <= i < |y| ==> !IsLineTerminator(y[i])
    ensures Inline(x + "**" + y + "**" + z) == x + "<strong>" + y + "</strong>" + z
  {
    assert forall c :: c in x || c in y || c in z ==> c in x + y + z;
    var b := x + "<strong>" + y + "</strong>" + z;
    assert Replace(x + "**" + y + "**" + z, "**", "<strong>", "</strong>") == b by {
      ReplaceUnfold(x, y, z, "**", "<strong>", "</strong>");
      ReplaceAbsent(z, "**", "<strong>", "</strong>");
    }
    AbsentFromWrap('*', x, y, z, "<strong>", "</strong>");
    AbsentFromWrap('`', x, y, z, "<strong>", "</strong>");
    ReplaceAbsent(b, "*", "<em>", "</em>");
    ReplaceAbsent(b, "`", "<code>", "</code>");
  }

  /** A character found in none of the pieces is not in their join. */
  lemma AbsentFromWrap(c: char, x: string, y: string, z: string, open: string, close: string)
    requires c !in x + y + z && c !in open && c !in close
    ensures c !in x + open + y + close + z
  {
    assert c !in x && c !in y && c !in z by {
      assert forall d :: d in x || d in y || d in z ==> d in x + y + z;
    }
  }

  /** A code span between plain text becomes one `<code>` element. */
  lemma InlineCode(x: string, y: string, z: string)
    requires '*' !in x + y + z && '`' !in x + y + z
    requires forall i :: 0 <= i < |y| ==> !IsLineTerminator(y[i])
    ensures Inline(x + "`" + y + "`" + z) == x + "<code>" + y + "</code>" + z
  {
    var s := x + "`" + y + "`" + z;
    assert forall c :: c in s ==> c in x || c in y || c in z || c == '`';
    ReplaceAbsent(s, "**", "<strong>", "</strong>");
    ReplaceAbsent(s, "*", "<em>", "</em>");
    assert forall c :: c in x || c in y || c in z ==> c in x + y + z;
    ReplaceUnfold(x, y, z, "`", "<code>", "</code>");
    ReplaceAbsent(z, "`", "<code>", "</code>");
  }
}
