/**
 * The pure parts of the device controller's gestures (and_controller.py):
 * the swipe offset table, the long press as a zero-length swipe, the escaping
 * of typed text and the reading of the `wm size` reply. The shell commands
 * themselves are not modelled; a gesture is the tuple the command is built from.
 */
module Gestures {
  import opened Text

  /** `input swipe x1 y1 x2 y2 duration`: start, end and duration in milliseconds. */
  datatype Gesture = Gesture(startX: int, startY: int, endX: int, endY: int, duration: int)

  /** The device's screen size as read by `get_device_size`. */
  datatype Size = Size(width: int, height: int)

  /** The duration of a long press when the caller gives none. */
  const DefaultLongPress: int := 1000

  /** Python `int(x / 10)`: true division, then truncation toward zero. */
  function TruncDiv10(x: int): (r: int)
    ensures x >= 0 ==> 0 <= r && 10 * r <= x < 10 * r + 10
    ensures x < 0 ==> r <= 0 && 10 * r - 10 < x <= 10 * r
  {
    if x >= 0 then x / 10 else -((-x) / 10)
  }

  /** The length of one swipe unit: a tenth of the width, tripled for `long`, doubled for `medium`. */
  function UnitDist(width: int, dist: string): (r: int)
    ensures width >= 0 ==> 0 <= r && 10 * r <= 3 * width
  {
    var u := TruncDiv10(width);
    if dist == "long" then 3 * u else if dist == "medium" then 2 * u else u
  }

  predicate IsDirection(direction: string)
  {
    direction == "up" || direction == "down" || direction == "left" || direction == "right"
  }

  /**
   * `swipe(x, y, direction, dist, quick)` on a screen `width` wide: the
   * gesture it issues, or `None` where it returns `"ERROR"` without issuing one.
   */
  function Swipe(x: int, y: int, direction: string, dist: string, quick: bool, width: int): (r: Option<Gesture>)
    ensures r.Some? <==> IsDirection(direction)
    ensures r.Some? ==> r.value.startX == x && r.value.startY == y
    ensures r.Some? ==> r.value.duration == (if quick then 100 else 400)
    ensures r.Some? && (direction == "up" || direction == "down") ==> r.value.endX == x
    ensures r.Some? && (direction == "left" || direction == "right") ==> r.value.endY == y
  {
    var u := UnitDist(width, dist);
    var offset :=
      if direction == "up" then Some((0, -2 * u))
      else if direction == "down" then Some((0, 2 * u))
      else if direction == "left" then Some((-1 * u, 0))
      else if direction == "right" then Some((u, 0))
      else None;
    if offset.None? then None
    else Some(Gesture(x, y, x + offset.value.0, y + offset.value.1, if quick then 100 else 400))
  }

  /** Up and down move the same distance in opposite directions, as do left and right. */
  lemma SwipeOpposites(x: int, y: int, dist: string, quick: bool, width: int)
    ensures var up, down := Swipe(x, y, "up", dist, quick, width).value, Swipe(x, y, "down", dist, quick, width).value;
      up.endY - y == -(down.endY - y)
    ensures var left, right := Swipe(x, y, "left", dist, quick, width).value, Swipe(x, y, "right", dist, quick, width).value;
      left.endX - x == -(right.endX - x)
  {
  }

  /** A vertical swipe travels twice as far as a horizontal one of the same length class. */
  lemma SwipeVerticalIsDouble(x: int, y: int, dist: string, quick: bool, width: int)
    ensures Swipe(x, y, "down", dist, quick, width).value.endY - y ==
      2 * (Swipe(x, y, "right", dist, quick, width).value.endX - x)
  {
  }

  /**
   * On a screen of non-negative width a rightward `long` swipe is three units,
   * a `medium` one two and any other length one, where a unit is `width // 10`;
   * so the lengths are ordered.
   */
  lemma SwipeLengths(x: int, y: int, dist: string, quick: bool, width: int)
    requires width >= 0
    ensures var step := Swipe(x, y, "right", dist, quick, width).value.endX - x;
      10 * step <= (if dist == "long" then 3 else if dist == "medium" then 2 else 1) * width &&
      (dist == "long" ==> step == 3 * (width / 10)) &&
      (dist == "medium" ==> step == 2 * (width / 10)) &&
      (dist != "long" && dist != "medium" ==> step == width / 10)
    ensures 0 <= Swipe(x, y, "right", "short", quick, width).value.endX - x
      <= Swipe(x, y, "right", "medium", quick, width).value.endX - x
      <= Swipe(x, y, "right", "long", quick, width).value.endX - x
  {
  }

  /** `long_press(x, y, duration)`: a swipe from `(x, y)` to `(x, y)` lasting `duration`. */
  function LongPress(x: int, y: int, duration: int): (r: Gesture)
    ensures r.startX == r.endX == x && r.startY == r.endY == y
    ensures r.duration == duration
  {
    Gesture(x, y, x, y, duration)
  }

  /** On a screen narrower than ten pixels every swipe degenerates into a long press of its duration. */
  lemma NarrowSwipeIsLongPress(x: int, y: int, direction: string, dist: string, quick: bool, width: int)
    requires 0 <= width < 10 && IsDirection(direction)
    ensures Swipe(x, y, direction, dist, quick, width) == Some(LongPress(x, y, if quick then 100 else 400))
  {
  }

  /** `text(input_str)`: every space becomes `%s`, then every `'` is removed. */
  function EscapeText(s: string): (r: string)
    ensures ' ' !in r && '\'' !in r
  {
    var spaced := ReplaceChar(s, ' ', "%s");
    ReplaceCharRemoves(s, ' ', "%s");
    ReplaceCharKeepsOut(spaced, '\'', "", ' ');
    ReplaceCharRemoves(spaced, '\'', "");
    ReplaceChar(spaced, '\'', "")
  }

  /** The escaping done in one pass over the text, character by character. */
  function EscapeOnePass(s: string): string
  {
    if s == "" then ""
    else (if s[0] == ' ' then "%s" else if s[0] == '\'' then "" else [s[0]]) + EscapeOnePass(s[1..])
  }

  /** The two successive replacements equal the one-pass escaping: `%s` holds no `'` to be removed. */
  lemma {:induction false} EscapeTextOnePass(s: string)
    ensures EscapeText(s) == EscapeOnePass(s)
  {
    if s != "" {
      EscapeTextOnePass(s[1..]);
      var head := if s[0] == ' ' then "%s" else [s[0]];
      var spaced := ReplaceChar(s, ' ', "%s");
      assert spaced == head + ReplaceChar(s[1..], ' ', "%s");
      ReplaceCharAppend(head, ReplaceChar(s[1..], ' ', "%s"), '\'', "");
      assert ReplaceChar(head, '\'', "") == (if s[0] == ' ' then "%s" else if s[0] == '\'' then "" else [s[0]]);
    }
  }

  /** Text with neither a space nor a `'` is typed unchanged. */
  lemma EscapePlainText(s: string)
    requires ' ' !in s && '\'' !in s
    ensures EscapeText(s) == s
  {
    ReplaceCharUnchanged(s, ' ', "%s");
    ReplaceCharUnchanged(s, '\'', "");
  }

  /** Escaping adds one character per space and drops one per `'`. */
  lemma {:induction false} EscapeTextLength(s: string)
    ensures |EscapeText(s)| == |s| + CountChar(s, ' ') - CountChar(s, '\'')
  {
    if s != "" {
      EscapeTextLength(s[1..]);
      EscapeTextOnePass(s);
      EscapeTextOnePass(s[1..]);
    }
  }

  /**
   * `get_device_size` on the stripped output of `wm size`: `(0, 0)` when the
   * command failed, else the text after the first `": "` up to the next one,
   * split on `x` into exactly two integers. `None` where Python raises.
   */
  function DeviceSize(result: string): (r: Option<Size>)
    ensures result == "ERROR" ==> r == Some(Size(0, 0))
  {
    if result == "ERROR" then Some(Size(0, 0))
    else
      var parts := Split(result, ": ");
      if |parts| < 2 then None
      else
        var dims := Split(parts[1], "x");
        if |dims| != 2 then None
        else
          var w :- ParseInt(dims[0]);
          var h :- ParseInt(dims[1]);
          Some(Size(w, h))
  }

  /** A reply other than `ERROR` without `": "` makes Python raise. */
  lemma DeviceSizeNeedsSeparator(result: string)
    requires result != "ERROR" && !Contains(result, ": ")
    ensures DeviceSize(result).None?
  {
  }

  /** The `WxH` part of a `wm size` reply. */
  function FormatSize(w: int, h: int): string
  {
    IntToString(w) + "x" + IntToString(h)
  }

  /** A reply `title: WxH` is read back as width `W` and height `H`, whatever the title before the colon. */
  lemma DeviceSizeOfReply(title: string, w: int, h: int)
    requires ':' !in title
    ensures DeviceSize(title + ": " + FormatSize(w, h)) == Some(Size(w, h))
  {
    var sw, sh := IntToString(w), IntToString(h);
    var dims := FormatSize(w, h);
    IntToStringAvoids(w, ": ");
    IntToStringAvoids(h, ": ");
    IntToStringAvoids(w, "x");
    IntToStringAvoids(h, "x");
    SplitDims(sw, sh);
    SplitTitled(title, dims);
    var reply := title + ": " + dims;
    assert reply[|title|] == ':';
    assert reply != "ERROR" by { assert ':' !in "ERROR"; }
    DeviceSizeOfInts(reply, dims, w, h);
  }

  lemma DeviceSizeOfInts(reply: string, dims: string, w: int, h: int)
    requires reply != "ERROR"
    requires var parts := Split(reply, ": "); |parts| >= 2 && parts[1] == dims
    requires Split(dims, "x") == [IntToString(w), IntToString(h)]
    ensures DeviceSize(reply) == Some(Size(w, h))
  {
    ParseIntOfIntToString(w);
    ParseIntOfIntToString(h);
    DeviceSizeOfParts(reply, dims, IntToString(w), IntToString(h));
  }

  lemma SplitDims(sw: string, sh: string)
    requires Avoids(sw, ": ") && Avoids(sh, ": ") && Avoids(sw, "x") && Avoids(sh, "x")
    ensures Avoids(sw + "x" + sh, ": ")
    ensures Split(sw + "x" + sh, "x") == [sw, sh]
  {
    SplitAfterAvoiding(sw, "x", sh);
    SplitAvoiding(sh, "x");
  }

  lemma SplitTitled(title: string, dims: string)
    requires ':' !in title && Avoids(dims, ": ")
    ensures Split(title + ": " + dims, ": ") == [title, dims]
  {
    SplitAfterFree(title, ": ", dims);
    SplitAvoiding(dims, ": ");
  }

  lemma DeviceSizeOfParts(reply: string, dims: string, sw: string, sh: string)
    requires reply != "ERROR"
    requires var parts := Split(reply, ": "); |parts| >= 2 && parts[1] == dims
    requires Split(dims, "x") == [sw, sh] && ParseInt(sw).Some? && ParseInt(sh).Some?
    ensures DeviceSize(reply) == Some(Size(ParseInt(sw).value, ParseInt(sh).value))
  {
  }
}
