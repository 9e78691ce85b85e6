/**
 * The three parsers of the language model's replies (model.py). Each takes
 * the reply's message text and returns what the exploration loop acts on:
 * in the program a list whose first item is the verb, `"FINISH"` or
 * `"ERROR"`; here a datatype with one constructor per shape of that list.
 * Every exception the parsers catch (a missing field, a failed `int()`, an
 * index out of range) yields the error result, as does an unknown verb.
 */
module Replies {
  import opened Text

  /** `parse_explore_rsp`: `Failure` is `["ERROR"]`, `Finish` is `["FINISH"]`. */
  datatype Act =
    | Failure
    | Finish
    | TapAt(area: int, summary: string)
    | TypeText(input: string, summary: string)
    | LongPressAt(area: int, summary: string)
    | SwipeFrom(area: int, direction: string, dist: string, summary: string)
    | OpenGrid

  /** `parse_grid_rsp`: areas are cell numbers, subareas the quoted positions inside a cell. */
  datatype GridAct =
    | GridFailure
    | GridFinish
    | TapCell(area: int, subarea: string, summary: string)
    | LongPressCell(area: int, subarea: string, summary: string)
    | SwipeCells(startArea: int, startSubarea: string, endArea: int, endSubarea: string, summary: string)
    | GridOpenGrid

  /** The three decisions that carry a documentation text. */
  datatype Decision = Back | Continue | Success

  /** `parse_reflect_rsp`: `[INEFFECTIVE, thought]` or `[decision, thought, doc]`. */
  datatype Reflection =
    | ReflectFailure
    | Ineffective(thought: string)
    | Documented(decision: Decision, thought: string, doc: string)

  /** The rest of `s` up to, not including, its first newline. */
  function UpToNewline(s: string): (r: string)
    ensures r <= s && '\n' !in r
    ensures |r| < |s| ==> s[|r|] == '\n'
  {
    match Find(s, "\n")
    case None =>
      FindCharNone(s, '\n');
      s
    case Some(j) =>
      FindCharSome(s, '\n');
      s[..j]
  }

  /**
   * `re.findall(tag + r": (.*?)$", msg, re.MULTILINE)[0]`: the text after the
   * first `"<tag>: "` up to the end of its line. `None` where the list is
   * empty and Python raises `IndexError`.
   */
  function Field(msg: string, tag: string): (r: Option<string>)
    ensures r.None? <==> !Contains(msg, tag + ": ")
    ensures r.Some? ==> '\n' !in r.value
  {
    var i :- Find(msg, tag + ": ");
    Some(UpToNewline(msg[i + |tag| + 2..]))
  }

  /** A message that opens with the line `"<tag>: <v>"` has field `tag` equal to `v`. */
  lemma FieldOfFirstLine(tag: string, v: string, rest: string)
    requires '\n' !in v
    requires rest == "" || rest[0] == '\n'
    ensures Field(tag + ": " + v + rest, tag) == Some(v)
  {
    var msg := tag + ": " + v + rest;
    FindAtStart(msg, tag + ": ");
    assert msg[|tag| + 2..] == v + rest;
    UpToNewlineOf(v, rest);
  }

  lemma UpToNewlineOf(v: string, rest: string)
    requires '\n' !in v
    requires rest == "" || rest[0] == '\n'
    ensures UpToNewline(v + rest) == v
  {
    var tail := v + rest;
    if rest == "" {
      assert tail == v;
      if Find(tail, "\n").Some? { FindCharSome(tail, '\n'); }
    } else {
      assert tail == v + "\n" + rest[1..];
      FindAfterFree(v, "\n", rest[1..]);
    }
  }

  /** The verb: `act.split("(")[0]`, the text before the first `(`. */
  function Verb(act: string): (r: string)
    ensures r <= act && '(' !in r
    ensures |r| < |act| ==> act[|r|] == '('
  {
    var parts := Split(act, "(");
    match Find(act, "(")
    case None =>
      FindCharNone(act, '(');
      act
    case Some(j) =>
      FindCharSome(act, '(');
      assert parts[0] == act[..j];
      parts[0]
  }

  /** The verb of `"<verb>(<rest>"` is `verb` when `verb` has no `(`. */
  lemma VerbOf(verb: string, rest: string)
    requires '(' !in verb
    ensures Verb(verb + "(" + rest) == verb
  {
    FindAfterFree(verb, "(", rest);
  }

  /**
   * `re.findall(verb + r"\((.*?)\)", act)[0]`: the text after the first
   * `"<verb>("` up to the first `)` after it. No later occurrence can succeed
   * where the first fails, so `None` (Python's `IndexError`) means there is
   * no `)` after the first `"<verb>("`, or no `"<verb>("` at all.
   */
  function Capture(act: string, verb: string): (r: Option<string>)
    ensures r.Some? ==> ')' !in r.value
  {
    var i :- Find(act, verb + "(");
    var rest := act[i + |verb| + 1..];
    var j :- Find(rest, ")");
    FindCharSome(rest, ')');
    Some(rest[..j])
  }

  /** The capture of `"<verb>(<p>)<rest>"` is `p` when `p` has no `)`. */
  lemma CaptureOf(verb: string, p: string, rest: string)
    requires ')' !in p
    ensures Capture(verb + "(" + p + ")" + rest, verb) == Some(p)
  {
    var act := verb + "(" + p + ")" + rest;
    FindAtStart(act, verb + "(");
    var tail := p + ")" + rest;
    assert act[|verb| + 1..] == tail;
    FindAfterFree(p, ")", rest);
    assert tail[..|p|] == p;
  }

  /** The action and summary `parse_explore_rsp` and `parse_grid_rsp` pull out of the reply. */
  datatype Lines = Lines(act: string, summary: string)

  /** The four fields, all required; only the action and the summary are used afterwards. */
  function ActionLines(msg: string): (r: Option<Lines>)
    ensures r.Some? <==> Field(msg, "Observation").Some? && Field(msg, "Thought").Some? &&
                         Field(msg, "Action").Some? && Field(msg, "Summary").Some?
    ensures r.Some? ==> r.value == Lines(Field(msg, "Action").value, Field(msg, "Summary").value)
  {
    var observation :- Field(msg, "Observation");
    var thought :- Field(msg, "Thought");
    var act :- Field(msg, "Action");
    var summary :- Field(msg, "Summary");
    Some(Lines(act, summary))
  }

  /** `tap(N)` or `long_press(N)` of the explore reply: one integer target. */
  function AreaParam(act: string, verb: string): Option<int>
  {
    var p :- Capture(act, verb);
    ParseInt(p)
  }

  /** `swipe(area, "dir", "dist")`: exactly three parameters, the last two stripped and unquoted. */
  function SwipeParams(act: string): Option<(int, string, string)>
  {
    var p :- Capture(act, "swipe");
    var params := Split(p, ",");
    if |params| != 3 then None
    else
      var area :- ParseInt(params[0]);
      Some((area, Inner(Strip(params[1], StrBlanks)), Inner(Strip(params[2], StrBlanks))))
  }

  /**
   * The action line of an explore reply, read with the reply's summary:
   * `FINISH` exactly when the action holds it anywhere, `grid` exactly for
   * the verb `grid`, and typed text taken from inside the captured quotes.
   */
  function ParseAction(act: string, summary: string): (r: Act)
    ensures r == Finish <==> Contains(act, "FINISH")
    ensures r == OpenGrid <==> !Contains(act, "FINISH") && Verb(act) == "grid"
    ensures r.TypeText? ==> Capture(act, "text").Some? && r.input == Inner(Capture(act, "text").value)
    ensures r.TapAt? || r.TypeText? || r.LongPressAt? || r.SwipeFrom? ==> r.summary == summary
  {
    if Contains(act, "FINISH") then Finish
    else
      var verb := Verb(act);
      if verb == "tap" then
        match AreaParam(act, "tap")
        case None => Failure
        case Some(area) => TapAt(area, summary)
      else if verb == "text" then
        match Capture(act, "text")
        case None => Failure
        case Some(p) => TypeText(Inner(p), summary)
      else if verb == "long_press" then
        match AreaParam(act, "long_press")
        case None => Failure
        case Some(area) => LongPressAt(area, summary)
      else if verb == "swipe" then
        match SwipeParams(act)
        case None => Failure
        case Some(t) => SwipeFrom(t.0, t.1, t.2, summary)
      else if verb == "grid" then OpenGrid
      else Failure
  }

  /** `parse_explore_rsp` on the reply's message text. */
  function ParseExplore(msg: string): (r: Act)
    ensures ActionLines(msg).None? ==> r == Failure
    ensures r == Finish <==> ActionLines(msg).Some? && Contains(ActionLines(msg).value.act, "FINISH")
    ensures r.TapAt? || r.TypeText? || r.LongPressAt? || r.SwipeFrom? ==> r.summary == Field(msg, "Summary").value
  {
    match ActionLines(msg)
    case None => Failure
    case Some(lines) => ParseAction(lines.act, lines.summary)
  }

  /** The verb word `parse_explore_rsp` puts first in its list. */
  function ActName(a: Act): string
  {
    match a
    case Failure => "ERROR"
    case Finish => "FINISH"
    case TapAt(_, _) => "tap"
    case TypeText(_, _) => "text"
    case LongPressAt(_, _) => "long_press"
    case SwipeFrom(_, _, _, _) => "swipe"
    case OpenGrid => "grid"
  }

  /** `res[-1]`, which the loop keeps as `last_act`: the summary, or the verb word for a one-item list. */
  function LastItem(a: Act): (r: string)
    ensures (a.Failure? || a.Finish? || a.OpenGrid?) ==> r == ActName(a)
    ensures !(a.Failure? || a.Finish? || a.OpenGrid?) ==> r == a.summary
  {
    match a
    case Failure => "ERROR"
    case Finish => "FINISH"
    case OpenGrid => "grid"
    case TapAt(_, s) => s
    case TypeText(_, s) => s
    case LongPressAt(_, s) => s
    case SwipeFrom(_, _, _, s) => s
  }

  /** A missing `Observation`, `Thought`, `Action` or `Summary` line gives `["ERROR"]`. */
  lemma ExploreNeedsAllFields(msg: string)
    requires !Contains(msg, "Observation: ") || !Contains(msg, "Thought: ") ||
             !Contains(msg, "Action: ") || !Contains(msg, "Summary: ")
    ensures ParseExplore(msg) == Failure
  {
    assert "Observation" + ": " == "Observation: " && "Thought" + ": " == "Thought: ";
    assert "Action" + ": " == "Action: " && "Summary" + ": " == "Summary: ";
    assert ActionLines(msg).None?;
  }

  /** With all four fields present, `FINISH` anywhere in the action wins over everything else. */
  lemma ExploreFinishWins(msg: string)
    requires ActionLines(msg).Some? && Contains(Field(msg, "Action").value, "FINISH")
    ensures ParseExplore(msg) == Finish
  {
  }

  /**
   * The verb decides the shape: every result other than the error and
   * `FINISH` comes from an action without `FINISH` whose text before `(` is
   * its verb word, and carries the reply's summary.
   */
  lemma ActionVerbDecides(act: string, summary: string)
    requires ParseAction(act, summary) != Failure && ParseAction(act, summary) != Finish
    ensures !Contains(act, "FINISH")
    ensures Verb(act) == ActName(ParseAction(act, summary))
    ensures !ParseAction(act, summary).OpenGrid? ==> ParseAction(act, summary).summary == summary
  {
  }

  /** A verb outside `tap`, `text`, `long_press`, `swipe` and `grid` (for example `fly`) gives `["ERROR"]`. */
  lemma ActionUnknownVerb(act: string, summary: string)
    requires !Contains(act, "FINISH")
    requires var v := Verb(act); v != "tap" && v != "text" && v != "long_press" && v != "swipe" && v != "grid"
    ensures ParseAction(act, summary) == Failure
  {
  }

  /** `tap(N)` and `long_press(N)` with an `N` that `int()` rejects give `["ERROR"]`. */
  lemma ActionTargetNeedsInt(act: string, summary: string)
    requires !Contains(act, "FINISH")
    requires var verb := Verb(act);
      (verb == "tap" || verb == "long_press") &&
      Capture(act, verb).Some? && ParseInt(Capture(act, verb).value).None?
    ensures ParseAction(act, summary) == Failure
  {
  }

  /** `swipe(...)` with other than three comma-separated parameters gives `["ERROR"]`. */
  lemma ActionSwipeNeedsThree(act: string, summary: string)
    requires !Contains(act, "FINISH") && Verb(act) == "swipe"
    requires Capture(act, "swipe").Some? && |Split(Capture(act, "swipe").value, ",")| != 3
    ensures ParseAction(act, summary) == Failure
  {
  }

  /** `fly(3)` is an unknown verb, so the reply is an error. */
  lemma FlyIsUnknown(summary: string)
    ensures ParseAction("fly(3)", summary) == Failure
  {
    assert "fly(3)" == "fly" + "(" + "3)";
    VerbOf("fly", "3)");
    NotContainsFree("fly(3)", "FINISH");
    ActionUnknownVerb("fly(3)", summary);
  }

  /** `tap(N)` is read back as a tap on target `N`. */
  lemma TapRoundTrip(n: int, summary: string)
    ensures ParseAction("tap(" + IntToString(n) + ")", summary) == TapAt(n, summary)
  {
    var sn := IntToString(n);
    var act := "tap(" + sn + ")";
    assert act == "tap" + "(" + (sn + ")");
    assert act == "tap" + "(" + sn + ")" + "";
    NotContainsFree(act, "FINISH");
    VerbOf("tap", sn + ")");
    IntToStringAvoids(n, ")");
    CaptureOf("tap", sn, "");
    ParseIntOfIntToString(n);
  }

  /** `text("<s>")` is read back as typing `s`, for `s` without `)` and an action without `FINISH`. */
  lemma TextRoundTrip(s: string, summary: string)
    requires ')' !in s && !Contains("text(\"" + s + "\")", "FINISH")
    ensures ParseAction("text(\"" + s + "\")", summary) == TypeText(s, summary)
  {
    var quoted := "\"" + s + "\"";
    var act := "text(\"" + s + "\")";
    assert act == "text" + "(" + (quoted + ")");
    assert act == "text" + "(" + quoted + ")" + "";
    VerbOf("text", quoted + ")");
    CaptureOf("text", quoted, "");
    InnerOfWrapped('"', s, '"');
    assert quoted == ['"'] + s + ['"'];
  }

  /** `long_press(N)` is read back as a long press on target `N`. */
  lemma LongPressRoundTrip(n: int, summary: string)
    ensures ParseAction("long_press(" + IntToString(n) + ")", summary) == LongPressAt(n, summary)
  {
    var sn := IntToString(n);
    var act := "long_press(" + sn + ")";
    assert "long_press" + "(" == "long_press(";
    assert act == "long_press" + "(" + (sn + ")");
    assert act == "long_press" + "(" + sn + ")";
    IntToStringAvoids(n, "F");
    FreeOfF("long_press(", sn);
    VerbOf("long_press", sn + ")");
    AreaParamOf("long_press", n);
  }

  /** The target of `verb(N)` is `N`. */
  lemma AreaParamOf(verb: string, n: int)
    ensures AreaParam(verb + "(" + IntToString(n) + ")", verb) == Some(n)
  {
    var sn := IntToString(n);
    IntToStringAvoids(n, ")");
    CaptureOf(verb, sn, "");
    assert verb + "(" + sn + ")" + "" == verb + "(" + sn + ")";
    ParseIntOfIntToString(n);
  }

  /** An action made of a head without `F` and a number, then `)`, has no `FINISH`. */
  lemma FreeOfF(head: string, sn: string)
    requires 'F' !in head && Avoids(sn, "F")
    ensures !Contains(head + sn + ")", "FINISH")
  {
    var act := head + sn + ")";
    assert 'F' !in sn by {
      forall k | 0 <= k < |sn| ensures sn[k] != 'F' { assert sn[k] !in "F"; }
    }
    NotContainsFree(act, "FINISH");
  }

  /** `, "<x>"`-style parameter text: a space, then `x` in double quotes. */
  function Quoted(x: string): string
  {
    " \"" + x + "\""
  }

  /** A quoted parameter is read back by `strip()` and `[1:-1]`, and has no `,` or `)` when `x` has none. */
  lemma QuotedParam(x: string)
    ensures Inner(Strip(Quoted(x), StrBlanks)) == x
  {
    var w := "\"" + x + "\"";
    var q := Quoted(x);
    assert q == " " + w && q[1..] == w;
    assert IsBlank(StrBlanks, q[0]) && !IsBlank(StrBlanks, w[0]);
    assert StripLeft(q, StrBlanks) == w;
    assert !IsBlank(StrBlanks, w[|w| - 1]);
    assert StripRight(w, StrBlanks) == w;
    assert w == ['"'] + x + ['"'];
    InnerOfWrapped('"', x, '"');
  }

  /** A quoted parameter has a `,` or a `)` only where its text has one. */
  lemma QuotedFree(x: string)
    ensures ',' !in x ==> Avoids(Quoted(x), ",")
    ensures ')' !in x ==> ')' !in Quoted(x)
  {
    if ',' !in x { AvoidsChar(Quoted(x), ','); }
  }

  /** The parameter text of `swipe(N, "d", "l")`. */
  function SwipeArgs(n: int, direction: string, dist: string): string
  {
    Join([IntToString(n), Quoted(direction), Quoted(dist)], ",")
  }

  /**
   * `swipe(N, "d", "l")` is read back as a swipe from target `N` in direction
   * `d` of length `l`, for `d` and `l` without `,` or `)` and an action
   * without `FINISH`.
   */
  lemma SwipeRoundTrip(n: int, direction: string, dist: string, summary: string)
    requires ',' !in direction && ')' !in direction && ',' !in dist && ')' !in dist
    requires !Contains("swipe(" + SwipeArgs(n, direction, dist) + ")", "FINISH")
    ensures ParseAction("swipe(" + SwipeArgs(n, direction, dist) + ")", summary) ==
      SwipeFrom(n, direction, dist, summary)
  {
    var p := SwipeArgs(n, direction, dist);
    var act := "swipe(" + p + ")";
    SwipeArgsSplit(n, direction, dist);
    assert act == "swipe" + "(" + (p + ")");
    assert act == "swipe" + "(" + p + ")" + "";
    VerbOf("swipe", p + ")");
    CaptureOf("swipe", p, "");
    ParseIntOfIntToString(n);
  }

  lemma SwipeArgsSplit(n: int, direction: string, dist: string)
    requires ',' !in direction && ')' !in direction && ',' !in dist && ')' !in dist
    ensures Split(SwipeArgs(n, direction, dist), ",") == [IntToString(n), Quoted(direction), Quoted(dist)]
    ensures ')' !in SwipeArgs(n, direction, dist)
    ensures Inner(Strip(Quoted(direction), StrBlanks)) == direction && Inner(Strip(Quoted(dist), StrBlanks)) == dist
  {
    var parts := [IntToString(n), Quoted(direction), Quoted(dist)];
    IntToStringAvoids(n, ",");
    IntToStringAvoids(n, ")");
    QuotedParam(direction);
    QuotedFree(direction);
    QuotedFree(dist);
    QuotedParam(dist);
    SplitOfJoin(parts, ",");
    var tail := [Quoted(direction), Quoted(dist)];
    assert parts[1..] == tail;
    assert tail[1..] == [Quoted(dist)];
    assert Join(tail, ",") == Quoted(direction) + "," + Quoted(dist);
    assert Join(parts, ",") == IntToString(n) + "," + Join(tail, ",");
    assert ')' !in IntToString(n) by { assert ')' in ")"; }
  }

  /**
   * The first two comma-separated parameters of a grid action: an integer cell
   * (read by `int` after `strip`) and a quoted subarea. A missing parameter (`IndexError`) and a cell that is
   * no integer (`ValueError`) both give the error result, so the order in which
   * Python meets them does not matter.
   */
  function CellParams(act: string, verb: string): Option<(int, string)>
  {
    var p :- Capture(act, verb);
    var params := Split(p, ",");
    if |params| < 2 then None
    else
      var area :- ParseInt(Strip(params[0], StrBlanks));
      Some((area, Inner(Strip(params[1], StrBlanks))))
  }

  /** The four parameters of a grid swipe: start cell and subarea, end cell and subarea. */
  function SwipeCellParams(act: string): Option<(int, string, int, string)>
  {
    var p :- Capture(act, "swipe");
    var params := Split(p, ",");
    if |params| < 4 then None
    else
      var start :- ParseInt(Strip(params[0], StrBlanks));
      var end :- ParseInt(Strip(params[2], StrBlanks));
      Some((start, Inner(Strip(params[1], StrBlanks)), end, Inner(Strip(params[3], StrBlanks))))
  }

  /** The action line of a grid reply, read with the reply's summary. */
  function ParseGridAction(act: string, summary: string): (r: GridAct)
    ensures r == GridFinish <==> Contains(act, "FINISH")
    ensures r == GridOpenGrid <==> !Contains(act, "FINISH") && Verb(act) == "grid"
    ensures r.TapCell? || r.LongPressCell? || r.SwipeCells? ==> r.summary == summary
  {
    if Contains(act, "FINISH") then GridFinish
    else
      var verb := Verb(act);
      if verb == "tap" then
        match CellParams(act, "tap")
        case None => GridFailure
        case Some(c) => TapCell(c.0, c.1, summary)
      else if verb == "long_press" then
        match CellParams(act, "long_press")
        case None => GridFailure
        case Some(c) => LongPressCell(c.0, c.1, summary)
      else if verb == "swipe" then
        match SwipeCellParams(act)
        case None => GridFailure
        case Some(c) => SwipeCells(c.0, c.1, c.2, c.3, summary)
      else if verb == "grid" then GridOpenGrid
      else GridFailure
  }

  /** `parse_grid_rsp` on the reply's message text. */
  function ParseGrid(msg: string): (r: GridAct)
    ensures ActionLines(msg).None? ==> r == GridFailure
    ensures r == GridFinish <==> ActionLines(msg).Some? && Contains(ActionLines(msg).value.act, "FINISH")
    ensures r.TapCell? || r.LongPressCell? || r.SwipeCells? ==> r.summary == Field(msg, "Summary").value
  {
    match ActionLines(msg)
    case None => GridFailure
    case Some(lines) => ParseGridAction(lines.act, lines.summary)
  }

  /** A grid reply without all four fields is an error; one whose action has `FINISH` finishes. */
  lemma GridFieldsAndFinish(msg: string)
    ensures ActionLines(msg).None? ==> ParseGrid(msg) == GridFailure
    ensures ActionLines(msg).Some? && Contains(Field(msg, "Action").value, "FINISH") ==> ParseGrid(msg) == GridFinish
  {
  }

  /** A grid tap or long press needs two parameters, a grid swipe four. */
  lemma GridNeedsParams(act: string, summary: string)
    requires !Contains(act, "FINISH")
    requires var verb := Verb(act);
      var c := Capture(act, verb);
      c.Some? && (verb == "tap" || verb == "long_press" || verb == "swipe") &&
      |Split(c.value, ",")| < (if verb == "swipe" then 4 else 2)
    ensures ParseGridAction(act, summary) == GridFailure
  {
    var verb := Verb(act);
    if verb == "swipe" {
      SwipeCellsNeedFour(act);
    } else {
      CellNeedsTwo(act, verb);
    }
  }

  lemma CellNeedsTwo(act: string, verb: string)
    requires Capture(act, verb).Some? && |Split(Capture(act, verb).value, ",")| < 2
    ensures CellParams(act, verb).None?
  {
  }

  lemma SwipeCellsNeedFour(act: string)
    requires Capture(act, "swipe").Some? && |Split(Capture(act, "swipe").value, ",")| < 4
    ensures SwipeCellParams(act).None?
  {
  }

  /** Grid results other than the error and `FINISH` come from an action with the matching verb. */
  lemma GridVerbDecides(act: string, summary: string)
    requires ParseGridAction(act, summary) != GridFailure && ParseGridAction(act, summary) != GridFinish
    ensures !Contains(act, "FINISH")
    ensures var verb := Verb(act); var g := ParseGridAction(act, summary);
      (g.TapCell? <==> verb == "tap") &&
      (g.LongPressCell? <==> verb == "long_press") &&
      (g.SwipeCells? <==> verb == "swipe") &&
      (g.GridOpenGrid? <==> verb == "grid")
    ensures var g := ParseGridAction(act, summary);
      (g.TapCell? ==> CellParams(act, "tap") == Some((g.area, g.subarea)) && g.summary == summary) &&
      (g.LongPressCell? ==> CellParams(act, "long_press") == Some((g.area, g.subarea)) && g.summary == summary) &&
      (g.SwipeCells? ==>
        SwipeCellParams(act) == Some((g.startArea, g.startSubarea, g.endArea, g.endSubarea)) && g.summary == summary)
  {
  }

  /** The parameters `N, "subarea"` of a grid tap or long press, as the grid prompt asks for them. */
  function CellArgs(n: int, subarea: string): string
  {
    Join([IntToString(n), Quoted(subarea)], ",")
  }

  /** The parameters `N, "subarea", M, "subarea"` of a grid swipe. */
  function SwipeCellArgs(n: int, startSubarea: string, m: int, endSubarea: string): string
  {
    Join([IntToString(n), Quoted(startSubarea), " " + IntToString(m), Quoted(endSubarea)], ",")
  }

  /** An integer written out, with or without one leading space, strips to itself. */
  lemma StripIntText(n: int)
    ensures Strip(IntToString(n), StrBlanks) == IntToString(n)
    ensures Strip(" " + IntToString(n), StrBlanks) == IntToString(n)
  {
    IntToStringEnds(n);
    StripNumber(IntToString(n));
  }

  lemma StripNumber(r: string)
    requires r != "" && !IsBlank(StrBlanks, r[0]) && !IsBlank(StrBlanks, r[|r| - 1])
    ensures Strip(r, StrBlanks) == r && Strip(" " + r, StrBlanks) == r
  {
    assert StripLeft(r, StrBlanks) == r;
    assert StripRight(r, StrBlanks) == r;
    assert StripLeft(" " + r, StrBlanks) == r by {
      var q := " " + r;
      assert q[1..] == r && IsBlank(StrBlanks, q[0]);
    }
  }

  /** An integer written out, with or without one leading space, has no `,` and no `)`. */
  lemma IntTextFree(n: int)
    ensures Avoids(IntToString(n), ",") && ')' !in IntToString(n)
    ensures Avoids(" " + IntToString(n), ",") && ')' !in " " + IntToString(n)
  {
    var r := IntToString(n);
    IntToStringAvoids(n, ",");
    IntToStringAvoids(n, ")");
    assert ')' !in r by { assert ')' in ")"; }
    assert ',' !in " " + r by { assert ',' !in r by { assert ',' in ","; } }
    AvoidsChar(" " + r, ',');
  }

  lemma CellArgsSplit(n: int, subarea: string)
    requires ',' !in subarea && ')' !in subarea
    ensures Split(CellArgs(n, subarea), ",") == [IntToString(n), Quoted(subarea)]
    ensures ')' !in CellArgs(n, subarea)
  {
    var parts := [IntToString(n), Quoted(subarea)];
    IntTextFree(n);
    QuotedFree(subarea);
    SplitOfJoin(parts, ",");
    assert parts[1..] == [Quoted(subarea)];
    assert Join(parts, ",") == IntToString(n) + "," + Quoted(subarea);
  }

  /** `verb(N, "subarea")` yields the cell `N` and the subarea as written. */
  lemma CellParamsOf(verb: string, n: int, subarea: string)
    requires '(' !in verb && ',' !in subarea && ')' !in subarea
    ensures CellParams(verb + "(" + CellArgs(n, subarea) + ")", verb) == Some((n, subarea))
  {
    var p := CellArgs(n, subarea);
    CellArgsSplit(n, subarea);
    CaptureOf(verb, p, "");
    assert verb + "(" + p + ")" + "" == verb + "(" + p + ")";
    StripIntText(n);
    ParseIntStripped(n);
    QuotedParam(subarea);
  }

  /** `int` reads back an integer written out and stripped. */
  lemma ParseIntStripped(n: int)
    ensures ParseInt(Strip(IntToString(n), StrBlanks)) == Some(n)
    ensures ParseInt(Strip(" " + IntToString(n), StrBlanks)) == Some(n)
  {
    StripIntText(n);
    ParseIntOfIntToString(n);
  }

  /**
   * A grid tap written as the grid prompt asks, `tap(N, "subarea")`, reads back
   * as that cell, that subarea and the summary.
   */
  lemma GridTapRoundTrip(n: int, subarea: string, summary: string)
    requires ',' !in subarea && ')' !in subarea
    requires !Contains("tap(" + CellArgs(n, subarea) + ")", "FINISH")
    ensures ParseGridAction("tap(" + CellArgs(n, subarea) + ")", summary) == TapCell(n, subarea, summary)
  {
    var p := CellArgs(n, subarea);
    var act := "tap(" + p + ")";
    assert "tap" + "(" == "tap(";
    assert act == "tap" + "(" + (p + ")");
    VerbOf("tap", p + ")");
    CellParamsOf("tap", n, subarea);
  }

  /** The same for `long_press(N, "subarea")`. */
  lemma GridLongPressRoundTrip(n: int, subarea: string, summary: string)
    requires ',' !in subarea && ')' !in subarea
    requires !Contains("long_press(" + CellArgs(n, subarea) + ")", "FINISH")
    ensures ParseGridAction("long_press(" + CellArgs(n, subarea) + ")", summary) ==
      LongPressCell(n, subarea, summary)
  {
    var p := CellArgs(n, subarea);
    var act := "long_press(" + p + ")";
    assert "long_press" + "(" == "long_press(";
    assert act == "long_press" + "(" + (p + ")");
    VerbOf("long_press", p + ")");
    CellParamsOf("long_press", n, subarea);
  }

  lemma SwipeCellArgsSplit(n: int, startSubarea: string, m: int, endSubarea: string)
    requires ',' !in startSubarea && ')' !in startSubarea && ',' !in endSubarea && ')' !in endSubarea
    ensures Split(SwipeCellArgs(n, startSubarea, m, endSubarea), ",") ==
      [IntToString(n), Quoted(startSubarea), " " + IntToString(m), Quoted(endSubarea)]
    ensures ')' !in SwipeCellArgs(n, startSubarea, m, endSubarea)
  {
    IntTextFree(n);
    IntTextFree(m);
    QuotedFree(startSubarea);
    QuotedFree(endSubarea);
    SplitFour(IntToString(n), Quoted(startSubarea), " " + IntToString(m), Quoted(endSubarea));
  }

  /** Four parameters free of `,` and `)`, joined by commas, split back apart. */
  lemma SplitFour(a: string, b: string, c: string, d: string)
    requires Avoids(a, ",") && Avoids(b, ",") && Avoids(c, ",") && Avoids(d, ",")
    requires ')' !in a && ')' !in b && ')' !in c && ')' !in d
    ensures Split(Join([a, b, c, d], ","), ",") == [a, b, c, d]
    ensures ')' !in Join([a, b, c, d], ",")
  {
    SplitOfJoin([a, b, c, d], ",");
    JoinFour(a, b, c, d);
  }

  /** Four parts joined by commas, written out. */
  lemma JoinFour(a: string, b: string, c: string, d: string)
    ensures Join([a, b, c, d], ",") == a + "," + (b + "," + (c + "," + d))
  {
    var parts := [a, b, c, d];
    assert parts[1..] == [b, c, d];
    assert [b, c, d][1..] == [c, d];
    assert [c, d][1..] == [d];
    assert Join([c, d], ",") == c + "," + d;
    assert Join([b, c, d], ",") == b + "," + Join([c, d], ",");
  }

  /**
   * A grid swipe written as the grid prompt asks, `swipe(N, "subarea", M,
   * "subarea")`, reads back as both cells, both subareas and the summary.
   */
  lemma GridSwipeRoundTrip(n: int, startSubarea: string, m: int, endSubarea: string, summary: string)
    requires ',' !in startSubarea && ')' !in startSubarea && ',' !in endSubarea && ')' !in endSubarea
    requires !Contains("swipe(" + SwipeCellArgs(n, startSubarea, m, endSubarea) + ")", "FINISH")
    ensures ParseGridAction("swipe(" + SwipeCellArgs(n, startSubarea, m, endSubarea) + ")", summary) ==
      SwipeCells(n, startSubarea, m, endSubarea, summary)
  {
    var p := SwipeCellArgs(n, startSubarea, m, endSubarea);
    var act := "swipe(" + p + ")";
    SwipeCellArgsSplit(n, startSubarea, m, endSubarea);
    assert "swipe" + "(" == "swipe(";
    assert act == "swipe" + "(" + (p + ")");
    assert act == "swipe" + "(" + p + ")" + "";
    VerbOf("swipe", p + ")");
    CaptureOf("swipe", p, "");
    ParseIntStripped(n);
    ParseIntStripped(m);
    QuotedParam(startSubarea);
    QuotedParam(endSubarea);
  }

  /** The decision line read exactly: one of the three that need documentation, or `None`. */
  function DecisionOf(decision: string): (r: Option<Decision>)
    ensures r == Some(Back) <==> decision == "BACK"
    ensures r == Some(Continue) <==> decision == "CONTINUE"
    ensures r == Some(Success) <==> decision == "SUCCESS"
  {
    if decision == "BACK" then Some(Back)
    else if decision == "CONTINUE" then Some(Continue)
    else if decision == "SUCCESS" then Some(Success)
    else None
  }

  /**
   * `parse_reflect_rsp` on the reply's message text: every result but the
   * error carries the `Thought` field, `INEFFECTIVE` is read exactly when it
   * is the whole decision, and a documented decision carries its
   * `Documentation` field.
   */
  function ParseReflect(msg: string): (r: Reflection)
    ensures r != ReflectFailure ==> Field(msg, "Decision").Some? && Field(msg, "Thought") == Some(r.thought)
    ensures r.Ineffective? <==> Field(msg, "Decision") == Some("INEFFECTIVE") && Field(msg, "Thought").Some?
    ensures r.Documented? ==>
      DecisionOf(Field(msg, "Decision").value) == Some(r.decision) && Field(msg, "Documentation") == Some(r.doc)
  {
    match Field(msg, "Decision")
    case None => ReflectFailure
    case Some(decision) =>
      match Field(msg, "Thought")
      case None => ReflectFailure
      case Some(thought) =>
        if decision == "INEFFECTIVE" then Ineffective(thought)
        else
          match DecisionOf(decision)
          case None => ReflectFailure
          case Some(d) =>
            match Field(msg, "Documentation")
            case None => ReflectFailure
            case Some(doc) => Documented(d, thought, doc)
  }

  /**
   * The decision table: with `Decision` and `Thought` present, `INEFFECTIVE`
   * needs nothing more, `BACK`, `CONTINUE` and `SUCCESS` need a
   * `Documentation` line, and any other decision text (compared exactly, so
   * case matters) is an error.
   */
  lemma ReflectDecisionTable(msg: string)
    requires Field(msg, "Decision").Some? && Field(msg, "Thought").Some?
    ensures var d, t, doc := Field(msg, "Decision").value, Field(msg, "Thought").value, Field(msg, "Documentation");
      (d == "INEFFECTIVE" ==> ParseReflect(msg) == Ineffective(t)) &&
      (d == "BACK" && doc.Some? ==> ParseReflect(msg) == Documented(Back, t, doc.value)) &&
      (d == "CONTINUE" && doc.Some? ==> ParseReflect(msg) == Documented(Continue, t, doc.value)) &&
      (d == "SUCCESS" && doc.Some? ==> ParseReflect(msg) == Documented(Success, t, doc.value)) &&
      (d != "INEFFECTIVE" && doc.None? ==> ParseReflect(msg) == ReflectFailure) &&
      (d != "INEFFECTIVE" && d != "BACK" && d != "CONTINUE" && d != "SUCCESS" ==> ParseReflect(msg) == ReflectFailure)
  {
  }

  /** A missing `Decision` or `Thought` line gives `["ERROR"]`. */
  lemma ReflectNeedsFields(msg: string)
    requires !Contains(msg, "Decision: ") || !Contains(msg, "Thought: ")
    ensures ParseReflect(msg) == ReflectFailure
  {
    assert "Decision" + ": " == "Decision: " && "Thought" + ": " == "Thought: ";
    assert Field(msg, "Decision").None? || Field(msg, "Thought").None?;
  }

  /** A reply opening with `Decision: INEFFECTIVE` and then a `Thought` line is read as ineffective. */
  lemma ReflectIneffectiveRoundTrip(thought: string, rest: string)
    requires '\n' !in thought
    requires rest == "" || rest[0] == '\n'
    ensures ParseReflect("Decision: INEFFECTIVE\n" + ("Thought: " + thought + rest)) == Ineffective(thought)
  {
    var tail := "Thought: " + thought + rest;
    var msg := "Decision: INEFFECTIVE\n" + tail;
    assert Field(msg, "Decision") == Some("INEFFECTIVE") by {
      assert msg == "Decision" + ": " + "INEFFECTIVE" + ("\n" + tail);
      FieldOfFirstLine("Decision", "INEFFECTIVE", "\n" + tail);
    }
    assert Field(msg, "Thought") == Some(thought) by {
      ThoughtAfterDecisionLine(thought, rest);
    }
  }

  lemma ThoughtAfterDecisionLine(thought: string, rest: string)
    requires '\n' !in thought
    requires rest == "" || rest[0] == '\n'
    ensures Field("Decision: INEFFECTIVE\n" + ("Thought: " + thought + rest), "Thought") == Some(thought)
  {
    var before := "Decision: INEFFECTIVE\n";
    assert "Thought" + ": " == "Thought: ";
    assert forall j | 0 <= j < |before| :: before[j] != 'T' || (j + 1 < |before| && before[j + 1] != 'h');
    FieldAfterLine(before, "Thought", thought, rest);
  }

  /**
   * A line `"<tag>: <v>"` is found as field `tag` after a prefix in which the
   * first two characters of `"<tag>: "` never occur one after the other.
   */
  lemma FieldAfterLine(before: string, tag: string, v: string, rest: string)
    requires var pat := tag + ": ";
      forall j | 0 <= j < |before| :: before[j] != pat[0] || (j + 1 < |before| && before[j + 1] != pat[1])
    requires '\n' !in v
    requires rest == "" || rest[0] == '\n'
    ensures Field(before + (tag + ": " + v + rest), tag) == Some(v)
  {
    var pat := tag + ": ";
    var after := v + rest;
    var msg := before + (tag + ": " + v + rest);
    assert msg == before + pat + after;
    FindAfterTwoChars(before, pat, after);
    assert msg[|before| + |tag| + 2..] == after;
    UpToNewlineOf(v, rest);
  }
}
