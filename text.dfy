/** Small string helpers shared by the whole model: the parts of JavaScript's
    string API that the blog's code relies on (trim, startsWith, substring,
    split on newline, toUpperCase), restricted to ASCII where JavaScript
    would consult Unicode tables. */
module Text {

  /** The characters `String.prototype.trim` removes, restricted to ASCII:
      space, tab, line feed, carriage return, vertical tab and form feed. */
  predicate IsSpace(c: char) {
    c == ' ' || c == '\t' || c == '\n' || c == '\r' || c as int == 11 || c as int == 12
  }

  predicate AllSpace(s: string) {
    forall i :: 0 <= i < |s| ==> IsSpace(s[i])
  }

  /** `s.startsWith(p)` */
  predicate StartsWith(s: string, p: string) {
    |p| <= |s| && s[..|p|] == p
  }

  /** `s.includes(c)` for a one-character needle */
  predicate Contains(s: string, c: char) {
    c in s
  }

  function TrimStart(s: string): (r: string)
    ensures |r| <= |s| && r == s[|s| - |r|..]
    ensures AllSpace(s[..|s| - |r|])
    ensures r != [] ==> !IsSpace(r[0])
  {
    if |s| > 0 && IsSpace(s[0]) then TrimStart(s[1..]) else s
  }

  function TrimEnd(s: string): (r: string)
    ensures |r| <= |s| && r == s[..|r|]
    ensures AllSpace(s[|r|..])
    ensures r != [] ==> !IsSpace(r[|r| - 1])
  {
    if |s| > 0 && IsSpace(s[|s| - 1]) then TrimEnd(s[..|s| - 1]) else s
  }

  /** How many leading characters `Trim` drops. */
  function TrimOffset(s: string): nat {
    |s| - |TrimStart(s)|
  }

  /** `s.trim()`: the result is a slice of `s`, everything cut away is
      white space, and the result neither starts nor ends with white space. */
  function Trim(s: string): (r: string)
    ensures TrimOffset(s) + |r| <= |s| && r == s[TrimOffset(s)..TrimOffset(s) + |r|]
    ensures AllSpace(s[..TrimOffset(s)]) && AllSpace(s[TrimOffset(s) + |r|..])
    ensures r != [] ==> !IsSpace(r[0]) && !IsSpace(r[|r| - 1])
  {
    var t := TrimStart(s);
    assert t == s[TrimOffset(s)..];
    TrimEnd(t)
  }

  /** Each character of the trimmed text, read off the original. */
  lemma TrimChar(s: string, i: nat)
    requires i < |Trim(s)|
    ensures TrimOffset(s) + i < |s| && Trim(s)[i] == s[TrimOffset(s) + i]
  {
    var o := TrimOffset(s);
    var t := Trim(s);
    assert t == s[o..o + |t|];
    assert t[i] == s[o..o + |t|][i];
  }

  /** `!s.trim()`: the trimmed string is empty exactly when every character
      is white space. */
  function IsBlank(s: string): (b: bool)
    ensures b <==> AllSpace(s)
  {
    TrimEmpty(s);
    Trim(s) == []
  }

  lemma TrimEmpty(s: string)
    ensures Trim(s) == [] <==> AllSpace(s)
  {
    var r := Trim(s);
    var a := TrimOffset(s);
    if r == [] {
      assert a == |s|;
      assert AllSpace(s[..a]);
      assert s[..a] == s;
    } else {
      assert r[0] == s[a];
    }
  }

  lemma AllSpaceConcat(a: string, b: string)
    ensures AllSpace(a + b) <==> AllSpace(a) && AllSpace(b)
  {
    if AllSpace(a + b) {
      forall i | 0 <= i < |a| ensures IsSpace(a[i]) { assert a[i] == (a + b)[i]; }
      forall i | 0 <= i < |b| ensures IsSpace(b[i]) { assert b[i] == (a + b)[|a| + i]; }
    }
  }

  /** `s.length > n ? s.substring(0, n) + '...' : s` */
  function Truncate(s: string, n: nat): (r: string)
    ensures |s| <= n ==> r == s
    ensures |s| > n ==> |r| == n + 3 && r[..n] == s[..n] && r[n..] == "..."
    ensures |r| <= n + 3
  {
    if |s| > n then s[..n] + "..." else s
  }

  /** `s.substring(0, n)`, which clamps `n` to the length of `s`. */
  function Prefix(s: string, n: nat): (r: string)
    ensures |r| == if n < |s| then n else |s|
    ensures r == s[..|r|]
  {
    if n < |s| then s[..n] else s
  }

  function UpperChar(c: char): char {
    if 'a' <= c <= 'z' then (c as int - 'a' as int + 'A' as int) as char else c
  }

  /** `s.toUpperCase()` on ASCII letters; every other character is kept. */
  function ToUpper(s: string): (r: string)
    ensures |r| == |s|
    ensures forall i :: 0 <= i < |s| ==> r[i] == UpperChar(s[i])
    ensures forall i :: 0 <= i < |r| ==> !('a' <= r[i] <= 'z')
  {
    if s == [] then [] else [UpperChar(s[0])] + ToUpper(s[1..])
  }

  /** Index of the first `c` at or after `from`, or `|s|` when there is none. */
  function IndexOf(s: string, c: char, from: nat): (r: nat)
    requires from <= |s|
    ensures from <= r <= |s|
    ensures r < |s| ==> s[r] == c
    ensures forall k :: from <= k < r ==> s[k] != c
    decreases |s| - from
  {
    if from == |s| || s[from] == c then from else IndexOf(s, c, from + 1)
  }

  function Count(s: string, c: char): nat {
    if s == [] then 0 else (if s[0] == c then 1 else 0) + Count(s[1..], c)
  }

  /** `s.split('\n')`: the pieces between line feeds, in order. An empty
      string gives one empty line. */
  function Lines(s: string): (r: seq<string>)
    ensures |r| >= 1
    decreases |s|
  {
    var j := IndexOf(s, '\n', 0);
    if j == |s| then [s] else [s[..j]] + Lines(s[j + 1..])
  }

  /** No line holds a line feed. */
  lemma {:induction false} LinesNoBreak(s: string)
    ensures forall k, i :: 0 <= k < |Lines(s)| && 0 <= i < |Lines(s)[k]| ==> Lines(s)[k][i] != '\n'
    decreases |s|
  {
    var j := IndexOf(s, '\n', 0);
    if j < |s| {
      var rest := s[j + 1..];
      LinesNoBreak(rest);
      var ls := [s[..j]] + Lines(rest);
      assert Lines(s) == ls;
      forall k, i | 0 <= k < |ls| && 0 <= i < |ls[k]| ensures ls[k][i] != '\n' {
        if k > 0 { assert ls[k] == Lines(rest)[k - 1]; }
      }
    }
  }

  /** `lines.join('\n')` */
  function JoinLines(ls: seq<string>): string
    requires |ls| >= 1
  {
    if |ls| == 1 then ls[0] else ls[0] + "\n" + JoinLines(ls[1..])
  }

  /** Splitting on line feeds yields one more piece than there are line
      feeds. */
  lemma {:induction false} LinesCount(s: string)
    ensures |Lines(s)| == Count(s, '\n') + 1
    decreases |s|
  {
    var j := IndexOf(s, '\n', 0);
    CountNone(s[..j], '\n');
    if j == |s| {
      assert s[..j] == s;
    } else {
      var rest := s[j + 1..];
      LinesCount(rest);
      assert s == s[..j] + ([s[j]] + rest);
      CountConcat(s[..j], [s[j]] + rest, '\n');
      CountConcat([s[j]], rest, '\n');
    }
  }

  /** Joining the pieces of a split with line feeds gives the text back. */
  lemma {:induction false} LinesJoin(s: string)
    ensures JoinLines(Lines(s)) == s
    decreases |s|
  {
    var j := IndexOf(s, '\n', 0);
    if j == |s| {
      assert Lines(s) == [s];
    } else {
      var rest := s[j + 1..];
      LinesJoin(rest);
      var ls := [s[..j]] + Lines(rest);
      assert Lines(s) == ls;
      assert ls[1..] == Lines(rest);
      assert JoinLines(ls) == s[..j] + "\n" + rest;
      CutAt(s, j);
    }
  }

  /** A text is its part before position `j`, the character there, and
      the rest. */
  lemma CutAt(s: string, j: nat)
    requires j < |s|
    ensures s == s[..j] + [s[j]] + s[j + 1..]
  {
  }

  lemma {:induction false} CountNone(s: string, c: char)
    requires forall k :: 0 <= k < |s| ==> s[k] != c
    ensures Count(s, c) == 0
  {
    if s != [] { CountNone(s[1..], c); }
  }

  lemma {:induction false} CountConcat(a: string, b: string, c: char)
    ensures Count(a + b, c) == Count(a, c) + Count(b, c)
  {
    if a == [] {
      assert a + b == b;
    } else {
      assert (a + b)[1..] == a[1..] + b;
      CountConcat(a[1..], b, c);
    }
  }

  function DigitChar(d: nat): char
    requires d < 10
  {
    ('0' as int + d) as char
  }

  /** The number a string of decimal digits stands for, read left to right;
      a character that is not a digit counts as 0. */
  function DigitsValue(s: string): nat
    decreases |s|
  {
    if s == [] then 0
    else
      var c := s[|s| - 1];
      10 * DigitsValue(s[..|s| - 1]) + (if '0' <= c <= '9' then c as int - '0' as int else 0)
  }

  /** The decimal spelling JavaScript gives a non-negative integer in a
      template literal: digits only, no leading zero unless the number is 0,
      and the digits spell `n`. */
  function NatToString(n: nat): (r: string)
    ensures |r| >= 1
    ensures forall i :: 0 <= i < |r| ==> '0' <= r[i] <= '9'
    ensures r[0] == '0' ==> n == 0
    ensures DigitsValue(r) == n
  {
    if n < 10 then [DigitChar(n)] else NatToString(n / 10) + [DigitChar(n % 10)]
  }
}

/** The stock optional-value wrapper. */
module Wrappers {
  datatype Option<+T> = None | Some(value: T)
}
