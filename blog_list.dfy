/** The home page slideshow (src/components/BlogList.tsx): a cursor over
    the list of posts moved by keys, the wheel and buttons, the placement of
    each card relative to the cursor, the card's cover and its preview. */
module BlogList {
  import opened Text
  import opened Wrappers

  datatype KeyName = ArrowUp | ArrowDown | OtherKey

  /** The cursor after a key press over `n` posts. */
  function KeyTarget(key: KeyName, cursor: nat, n: nat): nat {
    if key == ArrowUp && cursor > 0 then cursor - 1
    else if key == ArrowDown && cursor + 1 < n then cursor + 1
    else cursor
  }

  /** The cursor an unlocked wheel event moves to. */
  function WheelTarget(deltaY: int, cursor: nat, n: nat): nat {
    if deltaY > 0 && cursor + 1 < n then cursor + 1
    else if deltaY < 0 && cursor > 0 then cursor - 1
    else cursor
  }

  /** The cursor is a position of the list, or 0 when the list is empty. */
  predicate InRange(cursor: nat, n: nat) {
    cursor < n || cursor == 0
  }

  /** Keys move one step up or down when there is room, and do nothing
      otherwise; every key keeps the cursor in range. */
  lemma KeyTargetSpec(key: KeyName, cursor: nat, n: nat)
    requires InRange(cursor, n)
    ensures InRange(KeyTarget(key, cursor, n), n)
    ensures key == ArrowUp ==> KeyTarget(key, cursor, n) == if cursor > 0 then cursor - 1 else cursor
    ensures key == ArrowDown ==> KeyTarget(key, cursor, n) == if cursor + 1 < n then cursor + 1 else cursor
    ensures key == OtherKey ==> KeyTarget(key, cursor, n) == cursor
  {
  }

  /** Down then up comes back, whenever down moved. */
  lemma KeyDownUp(cursor: nat, n: nat)
    requires cursor + 1 < n
    ensures KeyTarget(ArrowUp, KeyTarget(ArrowDown, cursor, n), n) == cursor
  {
  }

  /** The wheel moves at most one step, in the direction of the sign of
      `deltaY`, never when `deltaY` is 0, and keeps the cursor in range. */
  lemma WheelTargetSpec(deltaY: int, cursor: nat, n: nat)
    requires InRange(cursor, n)
    ensures InRange(WheelTarget(deltaY, cursor, n), n)
    ensures deltaY == 0 ==> WheelTarget(deltaY, cursor, n) == cursor
    ensures deltaY > 0 ==> WheelTarget(deltaY, cursor, n) == KeyTarget(ArrowDown, cursor, n)
    ensures deltaY < 0 ==> WheelTarget(deltaY, cursor, n) == KeyTarget(ArrowUp, cursor, n)
  {
  }

  /** The list's navigation state: `cursor` is `currentIndex`, `count` is
      the number of posts and `locked` is the `isScrolling` flag of the
      wheel handler currently installed. Changing the cursor re-runs the
      effect that installs the handler, so a cursor change always leaves a
      fresh, unlocked handler behind. */
  class Navigator {
    var cursor: nat
    var count: nat
    var locked: bool

    ghost predicate Valid()
      reads this
    {
      InRange(cursor, count)
    }

    constructor (n: nat)
      ensures Valid() && cursor == 0 && count == n && !locked
    {
      cursor := 0;
      count := n;
      locked := false;
    }

    /** Move the cursor; a move re-installs the wheel handler unlocked. */
    method MoveTo(target: nat)
      modifies this
      ensures count == old(count) && cursor == target
      ensures locked == (old(locked) && target == old(cursor))
    {
      if target != cursor {
        cursor := target;
        locked := false;
      }
    }

    /** `handleKeyDown` */
    method KeyDown(key: KeyName)
      requires Valid()
      modifies this
      ensures Valid() && count == old(count)
      ensures cursor == KeyTarget(key, old(cursor), count)
      ensures locked == (old(locked) && cursor == old(cursor))
    {
      KeyTargetSpec(key, cursor, count);
      if key == ArrowUp && cursor > 0 {
        MoveTo(cursor - 1);
      } else if key == ArrowDown && cursor + 1 < count {
        MoveTo(cursor + 1);
      }
    }

    /** `handleWheel`: a locked handler ignores the event; an unlocked one
      takes the lock and moves at most one step. */
    method Wheel(deltaY: int)
      requires Valid()
      modifies this
      ensures Valid() && count == old(count)
      ensures old(locked) ==> cursor == old(cursor) && locked
      ensures !old(locked) ==> cursor == WheelTarget(deltaY, old(cursor), count) && locked == (cursor == old(cursor))
    {
      if locked {
        return;
      }
      locked := true;
      WheelTargetSpec(deltaY, cursor, count);
      if deltaY > 0 && cursor + 1 < count {
        MoveTo(cursor + 1);
      } else if deltaY < 0 && cursor > 0 {
        MoveTo(cursor - 1);
      }
    }

    /** The cooldown timer firing. */
    method ReleaseLock()
      modifies this
      ensures cursor == old(cursor) && count == old(count) && !locked
    {
      locked := false;
    }

    /** The up button: it moves only when the cursor is not at the top. */
    method PrevButton()
      requires Valid()
      modifies this
      ensures Valid() && count == old(count)
      ensures cursor == KeyTarget(ArrowUp, old(cursor), count)
      ensures locked == (old(locked) && cursor == old(cursor))
    {
      if cursor > 0 {
        MoveTo(cursor - 1);
      }
    }

    /** The down button: it moves only when the cursor is not at the
      bottom. */
    method NextButton()
      requires Valid()
      modifies this
      ensures Valid() && count == old(count)
      ensures cursor == KeyTarget(ArrowDown, old(cursor), count)
      ensures locked == (old(locked) && cursor == old(cursor))
    {
      if cursor + 1 < count {
        MoveTo(cursor + 1);
      }
    }

    /** A click on the `index`-th indicator dot; one dot is drawn per post. */
    method Indicator(index: nat)
      requires Valid() && index < count
      modifies this
      ensures Valid() && count == old(count) && cursor == index
      ensures locked == (old(locked) && cursor == old(cursor))
    {
      MoveTo(index);
    }

    /** The button states: up is disabled at the top, down at the bottom. */
    function PrevDisabled(): (b: bool)
      reads this
      ensures b <==> KeyTarget(ArrowUp, cursor, count) == cursor
    {
      cursor == 0
    }

    function NextDisabled(): (b: bool)
      reads this
      requires Valid() && count >= 1
      ensures b <==> KeyTarget(ArrowDown, cursor, count) == cursor
    {
      cursor == count - 1
    }
  }

  function Distance(index: nat, cursor: nat): nat {
    if index < cursor then cursor - index else index - cursor
  }

  /** A card's style. `offset` is the `translateY` percentage (none when
      the card is hidden), `opacity` is in tenths, `z` is the z-index and
      `interactive` says whether the card takes mouse input. */
  datatype Placement = Placement(offset: Option<int>, opacity: nat, z: nat, interactive: bool)

  function Max(a: int, b: int): int {
    if a < b then b else a
  }

  /** The placement if-chain of the slideshow for the card at `index`. */
  function Place(index: nat, cursor: nat): Placement {
    var distance := Distance(index, cursor);
    if index == cursor then Placement(Some(0), 10, 10, true)
    else if index + 1 == cursor then Placement(Some(-120), 6, 5, false)
    else if index == cursor + 1 then Placement(Some(120), 6, 5, false)
    else if distance <= 2 then
      var shift := 140 + (distance - 1) * 30;
      Placement(Some(if index < cursor then -shift else shift),
                Max(2, 6 - (distance - 1) * 2) as nat, Max(1, 5 - distance) as nat, false)
    else Placement(None, 0, 0, false)
  }

  /** The placement table by distance: 0 is centred, opaque and on top;
      1 is 120% away at 0.6 and z 5; 2 is 170% away at 0.4 and z 3; further
      cards are hidden. Earlier cards go up, later ones down. */
  lemma PlaceTable(index: nat, cursor: nat)
    ensures var p := Place(index, cursor);
            var d := Distance(index, cursor);
            var sign := if index < cursor then -1 else 1;
            (d == 0 ==> p == Placement(Some(0), 10, 10, true)) &&
            (d == 1 ==> p == Placement(Some(sign * 120), 6, 5, false)) &&
            (d == 2 ==> p == Placement(Some(sign * 170), 4, 3, false)) &&
            (d > 2 ==> p == Placement(None, 0, 0, false))
  {
  }

  /** Closer cards are stacked strictly above farther ones, among the
      cards that are shown. */
  lemma PlaceZDecreases(i: nat, j: nat, cursor: nat)
    requires Distance(i, cursor) < Distance(j, cursor) <= 2
    ensures Place(i, cursor).z > Place(j, cursor).z
  {
    PlaceTable(i, cursor);
    PlaceTable(j, cursor);
  }

  /** Cards the same distance before and after the cursor mirror each
      other. */
  lemma PlaceSymmetric(cursor: nat, k: nat)
    requires k <= cursor
    ensures var before := Place(cursor - k, cursor);
            var after := Place(cursor + k, cursor);
            before.opacity == after.opacity && before.z == after.z &&
            (before.offset.Some? <==> after.offset.Some?) &&
            (before.offset.Some? ==> before.offset.value == -after.offset.value)
  {
    PlaceTable(cursor - k, cursor);
    PlaceTable(cursor + k, cursor);
  }

  /** Only the card under the cursor takes mouse input or reacts to a
      click. */
  lemma PlaceInteractive(index: nat, cursor: nat)
    ensures Place(index, cursor).interactive <==> index == cursor
  {
  }

  /** `content.replace(/<[^>]*>/g, '')`: a `<` starts a tag only when a `>`
      follows somewhere after it, and the tag runs to the first such `>`. */
  function StripTags(s: string): string
    decreases |s|
  {
    if s == [] then []
    else if s[0] == '<' && IndexOf(s, '>', 1) < |s| then StripTags(s[IndexOf(s, '>', 1) + 1..])
    else [s[0]] + StripTags(s[1..])
  }

  /** No `<` is followed, anywhere later, by a `>`. */
  predicate TagFree(s: string) {
    forall i, j :: 0 <= i < j < |s| ==> !(s[i] == '<' && s[j] == '>')
  }

  lemma {:induction false} StripTagsChars(s: string)
    ensures forall c :: c in StripTags(s) ==> c in s
    decreases |s|
  {
    if s != [] {
      if s[0] == '<' && IndexOf(s, '>', 1) < |s| {
        var t := s[IndexOf(s, '>', 1) + 1..];
        StripTagsChars(t);
        assert forall c :: c in t ==> c in s;
      } else {
        StripTagsChars(s[1..]);
        assert forall c :: c in s[1..] ==> c in s;
      }
    }
  }

  /** Stripping leaves no tag behind, and text without `<` is unchanged. */
  lemma {:induction false} StripTagsFree(s: string)
    ensures TagFree(StripTags(s))
    decreases |s|
  {
    if s != [] {
      if s[0] == '<' && IndexOf(s, '>', 1) < |s| {
        StripTagsFree(s[IndexOf(s, '>', 1) + 1..]);
      } else {
        var rest := StripTags(s[1..]);
        StripTagsFree(s[1..]);
        StripTagsChars(s[1..]);
        var r := [s[0]] + rest;
        forall i, j | 0 <= i < j < |r| ensures !(r[i] == '<' && r[j] == '>') {
          assert r[j] == rest[j - 1];
          if i > 0 {
            assert r[i] == rest[i - 1];
          } else if s[0] == '<' {
            assert IndexOf(s, '>', 1) == |s|;
            assert forall c :: c in s[1..] ==> c != '>';
            assert r[j] in s[1..];
          }
        }
      }
    }
  }

  lemma {:induction false} StripTagsPlain(s: string)
    requires '<' !in s
    ensures StripTags(s) == s
  {
    if s != [] {
      StripTagsPlain(s[1..]);
    }
  }

  /** The card's preview: tags stripped, trimmed, cut at 150 characters. */
  function CardPreview(content: string): string {
    Truncate(Trim(StripTags(content)), 150)
  }

  lemma TagFreeSlice(s: string, a: nat, b: nat)
    requires TagFree(s) && a <= b <= |s|
    ensures TagFree(s[a..b])
  {
    var t := s[a..b];
    forall i, j | 0 <= i < j < |t| ensures !(t[i] == '<' && t[j] == '>') {
      assert t[i] == s[a + i] && t[j] == s[a + j];
    }
  }

  lemma TagFreeTruncate(t: string, n: nat)
    requires TagFree(t)
    ensures TagFree(Truncate(t, n))
  {
    var r := Truncate(t, n);
    if |t| > n {
      TagFreeSlice(t, 0, n);
      var p := t[..n];
      forall i, j | 0 <= i < j < |r| ensures !(r[i] == '<' && r[j] == '>') {
        if j >= n { assert r[j] == "..."[j - n]; }
        else { assert r[i] == p[i] && r[j] == p[j]; }
      }
    }
  }

  lemma TrimTruncateTagFree(s: string, n: nat)
    requires TagFree(s)
    ensures TagFree(Truncate(Trim(s), n))
  {
    var o := TrimOffset(s);
    TagFreeSlice(s, o, o + |Trim(s)|);
    TagFreeTruncate(Trim(s), n);
  }

  /** The preview is at most 153 characters, holds no tag, and is the
      stripped text itself when that fits in 150 characters. */
  lemma CardPreviewSpec(content: string)
    ensures |CardPreview(content)| <= 153
    ensures TagFree(CardPreview(content))
    ensures |Trim(StripTags(content))| <= 150 ==> CardPreview(content) == Trim(StripTags(content))
  {
    StripTagsFree(content);
    TrimTruncateTagFree(StripTags(content), 150);
  }

  /** The badge at a card's foot: `<n> IMAGE`, or `<n> IMAGES` unless
      there is exactly one, and nothing when the post has no images. */
  function ImageBadge(images: seq<string>): Option<string> {
    if |images| > 0 then Some(NatToString(|images|) + " IMAGE" + (if |images| != 1 then "S" else "")) else None
  }

  /** The badge shows exactly when there are images, starts with their
      number, and ends in the plural `S` exactly when there are several. */
  lemma ImageBadgeSpec(images: seq<string>)
    ensures ImageBadge(images).None? <==> images == []
    ensures ImageBadge(images).Some? ==>
              var b := ImageBadge(images).value;
              StartsWith(b, NatToString(|images|)) && (b[|b| - 1] == 'S' <==> |images| > 1)
  {
    if images != [] {
      var n := NatToString(|images|);
      var b := ImageBadge(images).value;
      assert b[..|n|] == n;
    }
  }

  /** What the card shows at the top. */
  datatype CardCover = SolidColor(color: string) | CoverPicture(url: string) | Placeholder(initials: string)

  /** `isSolidColor` */
  predicate IsSolidColor(c: string) {
    c != [] && StartsWith(c, "#")
  }

  /** `isValidImageUrl` */
  predicate IsValidImageUrl(c: string) {
    c != [] && (StartsWith(c, "http") || StartsWith(c, "data:"))
  }

  /** The cover if-chain: colour, then image, then a grey placeholder with
      the first three title characters in upper case. */
  function Cover(title: string, coverImage: Option<string>): CardCover {
    if coverImage.Some? && coverImage.value != [] && IsSolidColor(coverImage.value) then SolidColor(coverImage.value)
    else if coverImage.Some? && coverImage.value != [] && IsValidImageUrl(coverImage.value) then CoverPicture(coverImage.value)
    else Placeholder(ToUpper(Prefix(title, 3)))
  }

  /** A leading `#` means a colour even when the value would also pass as a
      url; an image needs an `http` or `data:` prefix; anything else falls
      back to the title's initials, at most three, upper-cased. */
  lemma CoverSpec(title: string, coverImage: Option<string>)
    ensures var c := Cover(title, coverImage);
            (c.SolidColor? <==> coverImage.Some? && StartsWith(coverImage.value, "#")) &&
            (c.CoverPicture? <==> coverImage.Some? && !StartsWith(coverImage.value, "#") &&
                                  (StartsWith(coverImage.value, "http") || StartsWith(coverImage.value, "data:"))) &&
            (c.SolidColor? ==> c.color == coverImage.value) &&
            (c.CoverPicture? ==> c.url == coverImage.value) &&
            (c.Placeholder? ==> |c.initials| <= 3 && c.initials == ToUpper(title[..|c.initials|]) &&
                                |c.initials| == if |title| < 3 then |title| else 3)
  {
  }
}
