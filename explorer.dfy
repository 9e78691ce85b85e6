/**
 * The autonomous exploration loop (self_explorer.py). Each round reads the
 * screen, offers the model the clickable and focusable elements not marked
 * useless, performs the action the model picks, asks the model to reflect on
 * its effect and documents the element's slot for that action.
 *
 * The device, the screenshots and the model are not part of this model: what
 * they return in round `k` is `inputs(k)`, a `RoundInput`. The loop's
 * variables are the fields of a `Session`; each round is specified by
 * `RoundSpec` on a `State` value and the whole run by `Rounds`.
 */
module Explorer {
  import opened Text
  import opened UiTree
  import opened Gestures
  import opened Replies
  import opened Docs

  /** What `ask_gpt4v` returns: a reply with an `"error"` key, or the message content. */
  datatype Reply = ServiceError | Content(msg: string)

  /** Everything the outside world supplies in one round. */
  datatype RoundInput = RoundInput(
    similar: bool,    // the previous after-screenshot matches the target picture
    captured: bool,   // neither the screenshot nor the XML dump returned "ERROR"
    screen: Node,     // the parsed XML dump
    explore: Reply,   // the reply to the exploration prompt
    actionOk: bool,   // the adb command of the chosen action did not return "ERROR"
    afterOk: bool,    // the after-screenshot did not return "ERROR"
    reflect: Reply,   // the reply to the reflection prompt
    backOk: bool)     // the back key press did not return "ERROR"

  /** `MAX_ROUNDS`, `MIN_DIST`, whether the picture check is on, the device width and the task description. */
  datatype Config = Config(maxRounds: nat, minDist: nat, checkSimilar: bool, width: int, taskDesc: string)

  /** The commands sent to the device, in the order they are issued. */
  datatype Command = TapCmd(x: int, y: int) | TextCmd(text: string) | GestureCmd(g: Gesture) | BackCmd

  /** The loop variables, the documentation directory and the commands issued so far. */
  datatype State = State(
    roundCount: nat,
    docCount: nat,
    useless: set<string>,
    lastAct: string,
    taskComplete: bool,
    docs: Store,
    issued: seq<Command>)

  /** The state before the first round: nothing counted, nothing useless, `last_act` is `"None"`. */
  function Initial(docs: Store): (s: State)
    ensures s.roundCount == 0 && s.docCount == 0 && s.useless == {} && !s.taskComplete
    ensures s.docs == docs && s.issued == [] && s.lastAct == "None"
  {
    State(0, 0, {}, "None", false, docs, [])
  }

  /** A round goes on to the next one, `break`s out of the loop, or raises an uncaught exception. */
  datatype Status = Running | Stopped | Crashed

  datatype After = After(status: Status, state: State)

  // ---------------------------------------------------------------------------
  // Candidate elements

  /** The clickable elements not marked useless, in order. */
  function KeepClickable(cs: seq<AndroidElement>, useless: set<string>): seq<AndroidElement>
  {
    if cs == [] then []
    else
      var last := cs[|cs| - 1];
      KeepClickable(cs[..|cs| - 1], useless) + (if last.uid in useless then [] else [last])
  }

  /** The focusable elements not marked useless whose centre is far from every clickable centre, in order. */
  function KeepFocusable(fs: seq<AndroidElement>, clickable: seq<AndroidElement>,
                         useless: set<string>, minDist: nat): seq<AndroidElement>
  {
    if fs == [] then []
    else
      var last := fs[|fs| - 1];
      KeepFocusable(fs[..|fs| - 1], clickable, useless, minDist) +
      (if last.uid !in useless && FarFromAll(Center(last.bbox), clickable, minDist) then [last] else [])
  }

  /** `elem_list`: the kept clickable elements followed by the kept focusable ones. */
  function Candidates(clickable: seq<AndroidElement>, focusable: seq<AndroidElement>,
                      useless: set<string>, minDist: nat): (r: seq<AndroidElement>)
    ensures KeepClickable(clickable, useless) <= r
    ensures |r| <= |clickable| + |focusable|
  {
    KeepClickableMembers(clickable, useless);
    KeepFocusableMembers(focusable, clickable, useless, minDist);
    KeepClickable(clickable, useless) + KeepFocusable(focusable, clickable, useless, minDist)
  }

  lemma {:induction false} KeepClickableMembers(cs: seq<AndroidElement>, useless: set<string>)
    ensures forall e :: e in KeepClickable(cs, useless) <==> e in cs && e.uid !in useless
    ensures |KeepClickable(cs, useless)| <= |cs|
  {
    if cs != [] {
      KeepClickableMembers(cs[..|cs| - 1], useless);
      assert cs == cs[..|cs| - 1] + [cs[|cs| - 1]];
    }
  }

  lemma {:induction false} KeepFocusableMembers(fs: seq<AndroidElement>, clickable: seq<AndroidElement>,
                                                useless: set<string>, minDist: nat)
    ensures forall e :: e in KeepFocusable(fs, clickable, useless, minDist) <==>
      e in fs && e.uid !in useless && FarFromAll(Center(e.bbox), clickable, minDist)
    ensures |KeepFocusable(fs, clickable, useless, minDist)| <= |fs|
  {
    if fs != [] {
      KeepFocusableMembers(fs[..|fs| - 1], clickable, useless, minDist);
      assert fs == fs[..|fs| - 1] + [fs[|fs| - 1]];
    }
  }

  /**
   * The offered elements are exactly the clickable ones not marked useless and
   * the focusable ones not marked useless that lie farther than `minDist` from
   * every clickable element; the clickable ones come first.
   */
  lemma CandidatesMembers(clickable: seq<AndroidElement>, focusable: seq<AndroidElement>,
                          useless: set<string>, minDist: nat)
    ensures var c := Candidates(clickable, focusable, useless, minDist);
      forall e :: e in c <==>
        e.uid !in useless && (e in clickable || (e in focusable && FarFromAll(Center(e.bbox), clickable, minDist)))
  {
    KeepClickableMembers(clickable, useless);
    KeepFocusableMembers(focusable, clickable, useless, minDist);
  }

  /** The offered list holds the kept clickable elements first, then the kept focusable ones. */
  lemma CandidatesLayout(clickable: seq<AndroidElement>, focusable: seq<AndroidElement>,
                         useless: set<string>, minDist: nat)
    ensures var c := Candidates(clickable, focusable, useless, minDist);
      var k := |KeepClickable(clickable, useless)|;
      k <= |c| <= |clickable| + |focusable| &&
      (forall i :: 0 <= i < k ==> c[i] in clickable) &&
      (forall i :: k <= i < |c| ==> c[i] in focusable)
  {
    KeepClickableMembers(clickable, useless);
    KeepFocusableMembers(focusable, clickable, useless, minDist);
    var kc, kf := KeepClickable(clickable, useless), KeepFocusable(focusable, clickable, useless, minDist);
    var c := kc + kf;
    forall i | 0 <= i < |kc| ensures c[i] in clickable { assert c[i] == kc[i]; assert kc[i] in kc; }
    forall i | |kc| <= i < |c| ensures c[i] in focusable { assert c[i] == kf[i - |kc|]; assert kf[i - |kc|] in kf; }
  }

  /** No element marked useless is ever offered. */
  lemma CandidatesAvoidUseless(clickable: seq<AndroidElement>, focusable: seq<AndroidElement>,
                               useless: set<string>, minDist: nat)
    ensures forall i :: 0 <= i < |Candidates(clickable, focusable, useless, minDist)| ==>
      Candidates(clickable, focusable, useless, minDist)[i].uid !in useless
  {
    CandidatesMembers(clickable, focusable, useless, minDist);
  }

  /** The two filtering loops of a round, the second scanning the clickable list for each focusable element. */
  method BuildCandidates(clickable: seq<AndroidElement>, focusable: seq<AndroidElement>,
                         useless: set<string>, minDist: nat)
    returns (elems: seq<AndroidElement>)
    ensures elems == Candidates(clickable, focusable, useless, minDist)
  {
    elems := [];
    var i := 0;
    while i < |clickable|
      invariant 0 <= i <= |clickable|
      invariant elems == KeepClickable(clickable[..i], useless)
    {
      assert clickable[..i + 1][..i] == clickable[..i];
      if clickable[i].uid !in useless {
        elems := elems + [clickable[i]];
      }
      i := i + 1;
    }
    assert clickable[..i] == clickable;
    ghost var kept := elems;
    var j := 0;
    while j < |focusable|
      invariant 0 <= j <= |focusable|
      invariant elems == kept + KeepFocusable(focusable[..j], clickable, useless, minDist)
    {
      assert focusable[..j + 1][..j] == focusable[..j];
      var elem := focusable[j];
      if elem.uid !in useless {
        var close := AnyClose(Center(elem.bbox), clickable, minDist);
        if !close {
          elems := elems + [elem];
        }
      }
      j := j + 1;
    }
    assert focusable[..j] == focusable;
  }

  /** The two `traverse_tree` calls and the filtering, or `None` where `traverse_tree` raises. */
  function Screen(tree: Node, useless: set<string>, minDist: nat): (r: Option<seq<AndroidElement>>)
    ensures r.Some? <==>
      Walk(tree, None, [], "clickable", true, minDist).Some? && Walk(tree, None, [], "focusable", true, minDist).Some?
  {
    var clickable :- Walk(tree, None, [], "clickable", true, minDist);
    var focusable :- Walk(tree, None, [], "focusable", true, minDist);
    Some(Candidates(clickable, focusable, useless, minDist))
  }

  /** An element marked useless is not offered on any later screen. */
  lemma ScreenAvoidsUseless(tree: Node, useless: set<string>, minDist: nat)
    requires Screen(tree, useless, minDist).Some?
    ensures forall e :: e in Screen(tree, useless, minDist).value ==> e.uid !in useless
  {
    var clickable := Walk(tree, None, [], "clickable", true, minDist).value;
    var focusable := Walk(tree, None, [], "focusable", true, minDist).value;
    CandidatesMembers(clickable, focusable, useless, minDist);
  }

  /** Dropping the last element keeps a list separated. */
  lemma SeparatedInit(cs: seq<AndroidElement>, minDist: nat)
    requires cs != [] && Separated(cs, minDist)
    ensures Separated(cs[..|cs| - 1], minDist)
  {
    var init := cs[..|cs| - 1];
    forall i, j | 0 <= i < j < |init|
      ensures !Near(Center(init[i].bbox), Center(init[j].bbox), minDist)
    {
      assert init[i] == cs[i] && init[j] == cs[j];
    }
  }

  /** The last element of a separated list is far from every element kept from the ones before it. */
  lemma LastFarFromKept(cs: seq<AndroidElement>, kept: seq<AndroidElement>, minDist: nat)
    requires cs != [] && Separated(cs, minDist)
    requires forall e :: e in kept ==> e in cs[..|cs| - 1]
    ensures FarFromAll(Center(cs[|cs| - 1].bbox), kept, minDist)
  {
    var init, last := cs[..|cs| - 1], cs[|cs| - 1];
    forall m | 0 <= m < |kept| ensures !Near(Center(last.bbox), Center(kept[m].bbox), minDist) {
      assert kept[m] in kept;
      assert kept[m] in init;
      var i :| 0 <= i < |init| && init[i] == kept[m];
      assert cs[i] == kept[m];
      NearSymmetric(Center(cs[i].bbox), Center(last.bbox), minDist);
    }
  }

  lemma {:induction false} KeepClickableSeparated(cs: seq<AndroidElement>, useless: set<string>, minDist: nat)
    requires Separated(cs, minDist)
    ensures Separated(KeepClickable(cs, useless), minDist)
  {
    if cs != [] {
      var init, last := cs[..|cs| - 1], cs[|cs| - 1];
      SeparatedInit(cs, minDist);
      KeepClickableSeparated(init, useless, minDist);
      if last.uid !in useless {
        KeepClickableMembers(init, useless);
        LastFarFromKept(cs, KeepClickable(init, useless), minDist);
        SeparatedAppend(KeepClickable(init, useless), last, minDist);
      }
    }
  }

  lemma {:induction false} KeepFocusableSeparated(fs: seq<AndroidElement>, clickable: seq<AndroidElement>,
                                                  useless: set<string>, minDist: nat)
    requires Separated(fs, minDist)
    ensures Separated(KeepFocusable(fs, clickable, useless, minDist), minDist)
  {
    if fs != [] {
      var init, last := fs[..|fs| - 1], fs[|fs| - 1];
      SeparatedInit(fs, minDist);
      KeepFocusableSeparated(init, clickable, useless, minDist);
      if last.uid !in useless && FarFromAll(Center(last.bbox), clickable, minDist) {
        KeepFocusableMembers(init, clickable, useless, minDist);
        LastFarFromKept(fs, KeepFocusable(init, clickable, useless, minDist), minDist);
        SeparatedAppend(KeepFocusable(init, clickable, useless, minDist), last, minDist);
      }
    }
  }

  /**
   * From separated clickable and focusable lists the offered list is
   * separated too: a kept focusable element is far from every clickable one.
   */
  lemma CandidatesSeparated(clickable: seq<AndroidElement>, focusable: seq<AndroidElement>,
                            useless: set<string>, minDist: nat)
    requires Separated(clickable, minDist) && Separated(focusable, minDist)
    ensures Separated(Candidates(clickable, focusable, useless, minDist), minDist)
  {
    var kc, kf := KeepClickable(clickable, useless), KeepFocusable(focusable, clickable, useless, minDist);
    KeepClickableSeparated(clickable, useless, minDist);
    KeepFocusableSeparated(focusable, clickable, useless, minDist);
    KeepClickableMembers(clickable, useless);
    KeepFocusableMembers(focusable, clickable, useless, minDist);
    var c := kc + kf;
    forall i, j | 0 <= i < j < |c|
      ensures !Near(Center(c[i].bbox), Center(c[j].bbox), minDist)
    {
      if j < |kc| {
        assert c[i] == kc[i] && c[j] == kc[j];
      } else if i >= |kc| {
        assert c[i] == kf[i - |kc|] && c[j] == kf[j - |kc|];
      } else {
        assert c[i] == kc[i] && c[j] == kf[j - |kc|];
        assert kc[i] in kc && kf[j - |kc|] in kf;
        var m :| 0 <= m < |clickable| && clickable[m] == kc[i];
        NearSymmetric(Center(c[i].bbox), Center(c[j].bbox), minDist);
      }
    }
  }

  /** The list offered in a round has no two centres within `MIN_DIST` of each other. */
  lemma ScreenSeparated(tree: Node, useless: set<string>, minDist: nat)
    requires Screen(tree, useless, minDist).Some?
    ensures Separated(Screen(tree, useless, minDist).value, minDist)
  {
    TraverseFromEmptySeparated(tree, "clickable", true, minDist);
    TraverseFromEmptySeparated(tree, "focusable", true, minDist);
    var clickable := Walk(tree, None, [], "clickable", true, minDist).value;
    var focusable := Walk(tree, None, [], "focusable", true, minDist).value;
    CandidatesSeparated(clickable, focusable, useless, minDist);
  }

  // ---------------------------------------------------------------------------
  // Targets, commands and slots

  /**
   * `elem_list[area - 1]` with Python's indexing: a non-negative index counts
   * from the front, a negative one from the back, anything else raises.
   */
  function PyIndex(area: int, len: nat): (r: Option<nat>)
    ensures r.Some? <==> -(len as int) <= area - 1 < len
    ensures r.Some? ==> r.value < len && (r.value == area - 1 || r.value == len + area - 1)
    ensures r.Some? && area >= 1 ==> r.value == area - 1
  {
    var k := area - 1;
    if 0 <= k < len then Some(k)
    else if -(len as int) <= k < 0 then Some(len + k)
    else None
  }

  /** Target `0` is the last element and `-len + 1` the first, as Python counts from the back. */
  lemma PyIndexFromBack(len: nat)
    requires len > 0
    ensures PyIndex(0, len) == Some(len - 1)
    ensures PyIndex(1 - len, len) == Some(0)
    ensures PyIndex(len + 1, len).None? && PyIndex(-(len as int), len).None?
  {
  }

  /**
   * The command for a tap, long press or swipe at the target's centre:
   * `None` for a swipe in an unknown direction, which returns `"ERROR"`
   * without reaching the device, and for every other action.
   */
  function CommandFor(act: Act, c: Point, width: int): (r: Option<Command>)
    ensures act.TapAt? ==> r == Some(TapCmd(c.x, c.y))
    ensures act.LongPressAt? ==> r == Some(GestureCmd(Gesture(c.x, c.y, c.x, c.y, DefaultLongPress)))
    ensures act.SwipeFrom? ==> (r.Some? <==> IsDirection(act.direction))
    ensures act.SwipeFrom? && r.Some? ==>
      r.value.GestureCmd? && r.value.g.startX == c.x && r.value.g.startY == c.y && r.value.g.duration == 400 &&
      Some(r.value.g) == Swipe(c.x, c.y, act.direction, act.dist, false, width)
    ensures r.Some? ==> act.TapAt? || act.LongPressAt? || act.SwipeFrom?
  {
    match act
    case TapAt(_, _) => Some(TapCmd(c.x, c.y))
    case LongPressAt(_, _) => Some(GestureCmd(LongPress(c.x, c.y, DefaultLongPress)))
    case SwipeFrom(_, direction, dist, _) =>
      (match Swipe(c.x, c.y, direction, dist, false, width)
       case None => None
       case Some(g) => Some(GestureCmd(g)))
    case _ => None
  }

  /**
   * The documentation slot of an action: `v_swipe` for an up or down swipe,
   * `h_swipe` for a left or right one. A swipe in any other direction keeps
   * the name `swipe`, which no record has (`None`).
   */
  function SlotFor(act: Act): (r: Option<Slot>)
    ensures act.TapAt? ==> r == Some(TapSlot)
    ensures act.LongPressAt? ==> r == Some(LongPressSlot)
    ensures act.SwipeFrom? ==>
      (r == Some(VSwipeSlot) <==> act.direction == "up" || act.direction == "down") &&
      (r == Some(HSwipeSlot) <==> act.direction == "left" || act.direction == "right") &&
      (r.None? <==> !IsDirection(act.direction))
    ensures r.Some? ==> act.TapAt? || act.LongPressAt? || act.SwipeFrom?
  {
    match act
    case TapAt(_, _) => Some(TapSlot)
    case LongPressAt(_, _) => Some(LongPressSlot)
    case SwipeFrom(_, direction, _, _) =>
      if direction == "up" || direction == "down" then Some(VSwipeSlot)
      else if direction == "left" || direction == "right" then Some(HSwipeSlot)
      else None
    case _ => None
  }

  /** Every action that reaches the device has a slot to document. */
  lemma CommandHasSlot(act: Act, c: Point, width: int)
    requires CommandFor(act, c, width).Some?
    ensures SlotFor(act).Some?
  {
  }

  // ---------------------------------------------------------------------------
  // One round

  /** A reply of the model parsed by `parse`, or `None` for a reply with an `"error"` key. */
  function Parsed<T>(reply: Reply, parse: string -> T): Option<T>
  {
    match reply
    case ServiceError => None
    case Content(msg) => Some(parse(msg))
  }

  /**
   * The reflection on an action at element `uid`: `INEFFECTIVE`, `BACK` and
   * `CONTINUE` mark the element useless and reset `last_act`; `BACK` presses
   * the back key; the three documented decisions then merge the text into
   * slot `slot` of the element's record.
   */
  function ReflectSpec(s: State, reply: Option<Reflection>, backOk: bool, uid: string, slot: Slot): (r: After)
    ensures r.state.roundCount == s.roundCount && r.state.taskComplete == s.taskComplete
    ensures r.state.useless <= s.useless + {uid} && r.state.docCount <= s.docCount + 1
    ensures reply.None? || reply.value.ReflectFailure? ==> r == After(Stopped, s)
  {
    match reply
    case None => After(Stopped, s)
    case Some(res) =>
      match res
      case ReflectFailure => After(Stopped, s)
      case Ineffective(_) => After(Running, s.(useless := s.useless + {uid}, lastAct := "None"))
      case Documented(decision, _, doc) => DocumentSpec(s, decision, doc, backOk, uid, slot)
  }

  /**
   * `BACK`, `CONTINUE` and `SUCCESS`: the first two mark the element useless
   * and reset `last_act`, `BACK` presses the back key, then the text is merged
   * into the element's record and counted when written.
   */
  function DocumentSpec(s: State, decision: Decision, doc: string, backOk: bool, uid: string, slot: Slot): (r: After)
    ensures decision == Success ==> r.state.useless == s.useless && r.state.lastAct == s.lastAct
    ensures decision != Success ==> r.state.useless == s.useless + {uid} && r.state.lastAct == "None"
    ensures r.state.issued == if decision == Back then s.issued + [BackCmd] else s.issued
    ensures r.state.roundCount == s.roundCount && r.state.taskComplete == s.taskComplete
  {
    var s1 := if decision == Success then s else s.(useless := s.useless + {uid}, lastAct := "None");
    var s2 := if decision == Back then s1.(issued := s1.issued + [BackCmd]) else s1;
    if decision == Back && !backOk then After(Stopped, s2)
    else StoreSpec(s2, uid, slot, doc)
  }

  /** The merge into the element's record, counted when the record is written. */
  function StoreSpec(s: State, uid: string, slot: Slot, doc: string): (r: After)
    ensures r.state.useless == s.useless && r.state.lastAct == s.lastAct && r.state.issued == s.issued
    ensures r.state.roundCount == s.roundCount && r.state.taskComplete == s.taskComplete
    ensures r.status == Crashed <==> MergeDoc(s.docs, uid, slot, doc).MergeCrash?
    ensures r.state.docCount == s.docCount || r.state.docCount == s.docCount + 1
  {
    match MergeDoc(s.docs, uid, slot, doc)
    case MergeCrash => After(Crashed, s)
    case Kept => After(Running, s)
    case Wrote(docs) => After(Running, s.(docs := docs, docCount := s.docCount + 1))
  }

  /**
   * The action at the target `elems[area - 1]`, then the after-screenshot, the
   * reflection prompt and the reflection. The prompt substitutes `last_act`
   * (the task description passed the same test when the round began).
   */
  function TargetSpec(s: State, inp: RoundInput, elems: seq<AndroidElement>, act: Act, area: int, width: int): (r: After)
    ensures PyIndex(area, |elems|).None? ==> r == After(Crashed, s)
    ensures r.state.roundCount == s.roundCount && r.state.taskComplete == s.taskComplete
    ensures r.state.docCount <= s.docCount + 1
  {
    match PyIndex(area, |elems|)
    case None => After(Crashed, s)
    case Some(i) =>
      var e := elems[i];
      match CommandFor(act, Center(e.bbox), width)
      case None => After(Stopped, s)
      case Some(cmd) =>
        var s1 := s.(issued := s.issued + [cmd]);
        if !inp.actionOk || !inp.afterOk then After(Stopped, s1)
        else
          // `CommandHasSlot`: an action with a command always has a slot, so the
          // `None` case (the source's "Undefined act" stop) is never reached.
          match SlotFor(act)
          case None => After(Crashed, s1)
          case Some(slot) =>
            if !ReplacementOk(s1.lastAct) then After(Crashed, s1)
            else ReflectSpec(s1, Parsed(inp.reflect, ParseReflect), inp.backOk, e.uid, slot)
  }

  /**
   * The exploration reply and what follows it: `FINISH` completes the task,
   * typing text goes straight to the next round without reflection, a tap,
   * long press or swipe acts on its target, and anything else ends the loop.
   */
  function ActSpec(s: State, inp: RoundInput, reply: Option<Act>, elems: seq<AndroidElement>, width: int): (r: After)
    ensures r.state.roundCount == s.roundCount
    ensures r.state.taskComplete <==> s.taskComplete || reply == Some(Finish)
    ensures reply == Some(Finish) ==> r.status == Stopped
  {
    match reply
    case None => After(Stopped, s)
    case Some(act) =>
      var s1 := s.(lastAct := LastItem(act));
      match act
      case Finish => After(Stopped, s1.(taskComplete := true))
      case TypeText(input, _) =>
        var s2 := s1.(issued := s1.issued + [TextCmd(EscapeText(input))]);
        if !inp.actionOk || !inp.afterOk then After(Stopped, s2) else After(Running, s2)
      case TapAt(area, _) => TargetSpec(s1, inp, elems, act, area, width)
      case LongPressAt(area, _) => TargetSpec(s1, inp, elems, act, area, width)
      case SwipeFrom(area, _, _, _) => TargetSpec(s1, inp, elems, act, area, width)
      case _ => After(Stopped, s1)
  }

  /**
   * One pass of the `while` body: the optional picture check (from the second
   * round on), the round counter, the screen capture, the candidates, the
   * exploration prompt (whose substitution of the task description and of
   * `last_act` raises on a bad replacement template) and the action.
   */
  function RoundSpec(s: State, inp: RoundInput, cfg: Config): (r: After)
    ensures s.roundCount <= r.state.roundCount <= s.roundCount + 1
    ensures r.status == Running ==> r.state.roundCount == s.roundCount + 1
    ensures r.state.roundCount == s.roundCount ==> r.status == Stopped && r.state.taskComplete
  {
    if cfg.checkSimilar && s.roundCount != 0 && inp.similar then After(Stopped, s.(taskComplete := true))
    else
      var s1 := s.(roundCount := s.roundCount + 1);
      if !inp.captured then After(Stopped, s1)
      else
        match Screen(inp.screen, s.useless, cfg.minDist)
        case None => After(Crashed, s1)
        case Some(elems) =>
          if !ReplacementOk(cfg.taskDesc) || !ReplacementOk(s1.lastAct) then After(Crashed, s1)
          else ActSpec(s1, inp, Parsed(inp.explore, ParseExplore), elems, cfg.width)
  }

  /**
   * What a step may change: the useless set and the documentation only grow,
   * no non-empty text is overwritten, complete records stay complete, the
   * document counter never decreases and commands are only appended.
   */
  predicate Grows(s: State, t: State)
  {
    s.useless <= t.useless && Preserves(s.docs, t.docs) &&
    (WellFormed(s.docs) ==> WellFormed(t.docs)) &&
    s.docCount <= t.docCount && s.issued <= t.issued
  }

  lemma GrowsRefl(s: State)
    ensures Grows(s, s)
  {
  }

  lemma GrowsTrans(s: State, t: State, u: State)
    requires Grows(s, t) && Grows(t, u)
    ensures Grows(s, u)
  {
    PreservesTrans(s.docs, t.docs, u.docs);
  }

  /**
   * A reflection grows the state, marks at most the reflected element
   * useless, counts at most one document and leaves the round counter and
   * `task_complete` alone; on complete records it never raises.
   */
  lemma ReflectFacts(s: State, reply: Option<Reflection>, backOk: bool, uid: string, slot: Slot)
    ensures var r := ReflectSpec(s, reply, backOk, uid, slot);
      Grows(s, r.state) && r.state.useless <= s.useless + {uid} &&
      r.state.docCount <= s.docCount + 1 &&
      r.state.roundCount == s.roundCount && r.state.taskComplete == s.taskComplete &&
      (WellFormed(s.docs) ==> r.status != Crashed)
  {
    if reply.Some? && reply.value.Documented? {
      DocumentFacts(s, reply.value.decision, reply.value.doc, backOk, uid, slot);
    }
  }

  lemma DocumentFacts(s: State, decision: Decision, doc: string, backOk: bool, uid: string, slot: Slot)
    ensures var r := DocumentSpec(s, decision, doc, backOk, uid, slot);
      Grows(s, r.state) && r.state.useless <= s.useless + {uid} &&
      r.state.docCount <= s.docCount + 1 &&
      r.state.roundCount == s.roundCount && r.state.taskComplete == s.taskComplete &&
      (WellFormed(s.docs) ==> r.status != Crashed)
  {
    var s1 := if decision == Success then s else s.(useless := s.useless + {uid}, lastAct := "None");
    var s2 := if decision == Back then s1.(issued := s1.issued + [BackCmd]) else s1;
    if !(decision == Back && !backOk) {
      StoreFacts(s2, uid, slot, doc);
    }
  }

  lemma StoreFacts(s: State, uid: string, slot: Slot, doc: string)
    ensures var r := StoreSpec(s, uid, slot, doc);
      Grows(s, r.state) && r.state.useless == s.useless && r.state.docCount <= s.docCount + 1 &&
      r.state.roundCount == s.roundCount && r.state.taskComplete == s.taskComplete &&
      (WellFormed(s.docs) ==> r.status != Crashed)
  {
    if WellFormed(s.docs) {
      MergeWellFormed(s.docs, uid, slot, doc);
    }
    if MergeDoc(s.docs, uid, slot, doc).Wrote? {
      MergePreserves(s.docs, uid, slot, doc);
    }
  }

  /** The post-action part of a round: as `ReflectFacts`, plus `task_complete` set only by `FINISH`, with a stop. */
  lemma ActFacts(s: State, inp: RoundInput, reply: Option<Act>, elems: seq<AndroidElement>, width: int)
    ensures var r := ActSpec(s, inp, reply, elems, width);
      Grows(s, r.state) && r.state.docCount <= s.docCount + 1 &&
      r.state.roundCount == s.roundCount &&
      (r.state.taskComplete != s.taskComplete ==> r.status == Stopped && r.state.taskComplete)
  {
    if reply.Some? {
      var act := reply.value;
      if act.TapAt? || act.LongPressAt? || act.SwipeFrom? {
        TargetFacts(s.(lastAct := LastItem(act)), inp, elems, act, act.area, width);
      }
    }
  }

  lemma TargetFacts(s: State, inp: RoundInput, elems: seq<AndroidElement>, act: Act, area: int, width: int)
    ensures var r := TargetSpec(s, inp, elems, act, area, width);
      Grows(s, r.state) && r.state.docCount <= s.docCount + 1 &&
      r.state.roundCount == s.roundCount && r.state.taskComplete == s.taskComplete
  {
    var i := PyIndex(area, |elems|);
    if i.Some? {
      var cmd := CommandFor(act, Center(elems[i.value].bbox), width);
      var slot := SlotFor(act);
      if cmd.Some? && slot.Some? && ReplacementOk(s.lastAct) {
        ReflectFacts(s.(issued := s.issued + [cmd.value]), Parsed(inp.reflect, ParseReflect), inp.backOk,
                     elems[i.value].uid, slot.value);
      }
    }
  }

  /**
   * A round grows the state and counts at most one document; a round that
   * goes on has advanced the round counter by one; `task_complete` only
   * becomes true together with a stop.
   */
  lemma RoundFacts(s: State, inp: RoundInput, cfg: Config)
    ensures var r := RoundSpec(s, inp, cfg);
      Grows(s, r.state) && r.state.docCount <= s.docCount + 1 &&
      s.roundCount <= r.state.roundCount <= s.roundCount + 1 &&
      (r.state.docCount > s.docCount ==> r.state.roundCount == s.roundCount + 1) &&
      (r.status == Running ==> r.state.roundCount == s.roundCount + 1) &&
      (r.state.taskComplete != s.taskComplete ==> r.status == Stopped && r.state.taskComplete)
  {
    if !(cfg.checkSimilar && s.roundCount != 0 && inp.similar) && inp.captured {
      var elems := Screen(inp.screen, s.useless, cfg.minDist);
      if elems.Some? && ReplacementOk(cfg.taskDesc) && ReplacementOk(s.lastAct) {
        ActFacts(s.(roundCount := s.roundCount + 1), inp, Parsed(inp.explore, ParseExplore), elems.value, cfg.width);
      }
    }
  }

  /** A round whose reply is `text(...)` types and goes on: nothing is marked useless or documented. */
  lemma TextRoundSkipsReflection(s: State, inp: RoundInput, input: string, summary: string,
                                  elems: seq<AndroidElement>, width: int)
    requires inp.actionOk && inp.afterOk
    ensures var r := ActSpec(s, inp, Some(TypeText(input, summary)), elems, width);
      r.status == Running && r.state.useless == s.useless && r.state.docs == s.docs &&
      r.state.docCount == s.docCount && r.state.lastAct == summary &&
      r.state.issued == s.issued + [TextCmd(EscapeText(input))]
  {
  }

  /** A `SUCCESS` decision documents the element but keeps it on offer and keeps `last_act`. */
  lemma SuccessKeepsElement(s: State, thought: string, doc: string, backOk: bool, uid: string, slot: Slot)
    ensures var r := ReflectSpec(s, Some(Documented(Success, thought, doc)), backOk, uid, slot);
      r.state.useless == s.useless && r.state.lastAct == s.lastAct && r.state.issued == s.issued
  {
  }

  /** `INEFFECTIVE`, `BACK` and `CONTINUE` mark the element useless whenever the round gets that far. */
  lemma RejectedElementMarked(s: State, res: Reflection, backOk: bool, uid: string, slot: Slot)
    requires res.Ineffective? || (res.Documented? && res.decision != Success)
    ensures var r := ReflectSpec(s, Some(res), backOk, uid, slot);
      uid in r.state.useless && r.state.lastAct == "None"
  {
  }

  /** `INEFFECTIVE` goes on to the next round without documenting anything. */
  lemma IneffectiveWritesNothing(s: State, thought: string, backOk: bool, uid: string, slot: Slot)
    ensures var r := ReflectSpec(s, Some(Ineffective(thought)), backOk, uid, slot);
      r.status == Running && r.state.docs == s.docs && r.state.docCount == s.docCount &&
      r.state.issued == s.issued && r.state.useless == s.useless + {uid}
  {
  }

  /** `BACK` presses the back key; when that returns `"ERROR"` the loop ends before any document is written. */
  lemma BackFailureStops(s: State, thought: string, doc: string, uid: string, slot: Slot)
    ensures var r := ReflectSpec(s, Some(Documented(Back, thought, doc)), false, uid, slot);
      r.status == Stopped && r.state.docs == s.docs && r.state.docCount == s.docCount &&
      r.state.issued == s.issued + [BackCmd] && uid in r.state.useless
  {
  }

  /**
   * `doc_count` grows by one exactly when the record is written: a documented
   * slot leaves the whole state as it was.
   */
  lemma StoreCountsWrites(s: State, uid: string, slot: Slot, doc: string)
    ensures var r := StoreSpec(s, uid, slot, doc);
      (MergeDoc(s.docs, uid, slot, doc).Kept? ==> r == After(Running, s)) &&
      (MergeDoc(s.docs, uid, slot, doc).Wrote? ==>
        r.status == Running && r.state.docs == MergeDoc(s.docs, uid, slot, doc).docs &&
        r.state.docCount == s.docCount + 1)
  {
  }

  /**
   * An error reply, `["ERROR"]` and `["grid"]` end the loop without completing
   * the task and without a command, keeping the verb word as `last_act`.
   */
  lemma StopsWithoutCompletion(s: State, inp: RoundInput, reply: Option<Act>, elems: seq<AndroidElement>, width: int)
    requires reply.None? || reply.value.Failure? || reply.value.OpenGrid?
    ensures var r := ActSpec(s, inp, reply, elems, width);
      r.status == Stopped && r.state.taskComplete == s.taskComplete && r.state.issued == s.issued &&
      (reply.Some? ==> r.state.lastAct == ActName(reply.value))
  {
  }

  /** `FINISH` sets `last_act` to `"FINISH"`, completes the task and ends the loop; nothing else changes. */
  lemma FinishCompletes(s: State, inp: RoundInput, elems: seq<AndroidElement>, width: int)
    ensures ActSpec(s, inp, Some(Finish), elems, width) ==
      After(Stopped, s.(lastAct := "FINISH", taskComplete := true))
  {
  }

  /** An undefined decision and an error reply to the reflection end the loop and change nothing. */
  lemma ReflectFailureStops(s: State, backOk: bool, uid: string, slot: Slot)
    ensures ReflectSpec(s, Some(ReflectFailure), backOk, uid, slot) == After(Stopped, s)
    ensures ReflectSpec(s, None, backOk, uid, slot) == After(Stopped, s)
  {
  }

  /**
   * `CONTINUE` marks the element useless but presses no back key: no command
   * is added, and what the back key would return makes no difference.
   */
  lemma ContinueNoBack(s: State, thought: string, doc: string, backOk: bool, uid: string, slot: Slot)
    ensures var r := ReflectSpec(s, Some(Documented(Continue, thought, doc)), backOk, uid, slot);
      r.state.issued == s.issued && uid in r.state.useless &&
      r == ReflectSpec(s, Some(Documented(Continue, thought, doc)), !backOk, uid, slot)
  {
  }

  /**
   * A task description or a `last_act` that is no valid replacement template
   * (a `\d`, a group reference such as `\1`, a trailing backslash) makes the
   * round raise while the exploration prompt is built, before the model is asked.
   */
  lemma BadTemplateCrashes(s: State, inp: RoundInput, cfg: Config)
    requires !(cfg.checkSimilar && s.roundCount != 0 && inp.similar) && inp.captured
    requires Screen(inp.screen, s.useless, cfg.minDist).Some?
    requires !ReplacementOk(cfg.taskDesc) || !ReplacementOk(s.lastAct)
    ensures RoundSpec(s, inp, cfg) == After(Crashed, s.(roundCount := s.roundCount + 1))
  {
  }

  /** Without a backslash in the task description and in `last_act`, the round reaches the model's reply. */
  lemma PlainTextsReachReply(s: State, inp: RoundInput, cfg: Config)
    requires !(cfg.checkSimilar && s.roundCount != 0 && inp.similar) && inp.captured
    requires Screen(inp.screen, s.useless, cfg.minDist).Some?
    requires '\\' !in cfg.taskDesc && '\\' !in s.lastAct
    ensures var s1 := s.(roundCount := s.roundCount + 1);
      RoundSpec(s, inp, cfg) ==
      ActSpec(s1, inp, Parsed(inp.explore, ParseExplore), Screen(inp.screen, s.useless, cfg.minDist).value, cfg.width)
  {
    ReplacementWithoutBackslash(cfg.taskDesc);
    ReplacementWithoutBackslash(s.lastAct);
    var s1 := s.(roundCount := s.roundCount + 1);
    var elems := Screen(inp.screen, s.useless, cfg.minDist).value;
    assert Screen(inp.screen, s.useless, cfg.minDist) == Some(elems);
    assert ReplacementOk(cfg.taskDesc) && ReplacementOk(s1.lastAct);
    var a := ActSpec(s1, inp, Parsed(inp.explore, ParseExplore), elems, cfg.width);
    assert RoundSpec(s, inp, cfg) == a;
  }

  /**
   * A summary that is no valid replacement template lets the action reach the
   * device and then makes the round raise while the reflection prompt is built.
   */
  lemma BadSummaryCrashesReflection(s: State, inp: RoundInput, elems: seq<AndroidElement>, act: Act,
                                    area: int, width: int)
    requires PyIndex(area, |elems|).Some?
    requires CommandFor(act, Center(elems[PyIndex(area, |elems|).value].bbox), width).Some?
    requires inp.actionOk && inp.afterOk && !ReplacementOk(s.lastAct)
    ensures var r := TargetSpec(s, inp, elems, act, area, width);
      r.status == Crashed &&
      r.state.issued == s.issued + [CommandFor(act, Center(elems[PyIndex(area, |elems|).value].bbox), width).value]
  {
    CommandHasSlot(act, Center(elems[PyIndex(area, |elems|).value].bbox), width);
  }

  // ---------------------------------------------------------------------------
  // The whole loop

  /** `while round_count < MAX_ROUNDS`: rounds until one stops, or the counter reaches the limit. */
  function Rounds(s: State, inputs: nat -> RoundInput, cfg: Config): (r: After)
    ensures s.roundCount <= cfg.maxRounds ==> r.state.roundCount <= cfg.maxRounds
    ensures r.status == Running ==> r.state.roundCount >= cfg.maxRounds
    decreases cfg.maxRounds - s.roundCount
  {
    if s.roundCount >= cfg.maxRounds then After(Running, s)
    else
      var a := RoundSpec(s, inputs(s.roundCount), cfg);
      RoundFacts(s, inputs(s.roundCount), cfg);
      if a.status == Running then Rounds(a.state, inputs, cfg) else a
  }

  /**
   * Over the whole run the state grows, at most one document is counted per
   * round, the round counter never passes the limit, a run that was not
   * stopped ends at the limit, and a completed task always comes with a stop.
   */
  lemma {:induction false} RoundsFacts(s: State, inputs: nat -> RoundInput, cfg: Config)
    requires s.roundCount <= cfg.maxRounds
    ensures var r := Rounds(s, inputs, cfg);
      Grows(s, r.state) &&
      s.roundCount <= r.state.roundCount <= cfg.maxRounds &&
      r.state.docCount - s.docCount <= r.state.roundCount - s.roundCount &&
      (r.status == Running ==> r.state.roundCount == cfg.maxRounds) &&
      (!s.taskComplete && r.state.taskComplete ==> r.status == Stopped)
    decreases cfg.maxRounds - s.roundCount
  {
    if s.roundCount < cfg.maxRounds {
      var a := RoundSpec(s, inputs(s.roundCount), cfg);
      RoundFacts(s, inputs(s.roundCount), cfg);
      if a.status == Running {
        RoundsFacts(a.state, inputs, cfg);
        GrowsTrans(s, a.state, Rounds(a.state, inputs, cfg).state);
      }
    }
  }

  /**
   * The state at the start of the `k`-th round after `s` (counting from 0),
   * when the loop gets that far: the `k` rounds before it all went on.
   */
  function StateAt(s: State, inputs: nat -> RoundInput, cfg: Config, k: nat): (r: Option<State>)
    ensures r.Some? ==> Grows(s, r.value) && r.value.roundCount == s.roundCount + k
    ensures r.Some? ==> s.roundCount + k <= cfg.maxRounds || k == 0
    decreases k
  {
    if k == 0 then
      GrowsRefl(s);
      Some(s)
    else if s.roundCount >= cfg.maxRounds then None
    else
      var a := RoundSpec(s, inputs(s.roundCount), cfg);
      RoundFacts(s, inputs(s.roundCount), cfg);
      if a.status == Running then
        var r := StateAt(a.state, inputs, cfg, k - 1);
        if r.Some? then GrowsTrans(s, a.state, r.value); r else r
      else None
  }

  /**
   * An element marked useless before a run is offered in none of its rounds:
   * at the start of every round the loop reaches it is still marked, so the
   * list that round builds from its screen leaves it out.
   */
  lemma BlacklistedNeverOffered(s: State, inputs: nat -> RoundInput, cfg: Config, k: nat, id: string)
    requires id in s.useless && StateAt(s, inputs, cfg, k).Some?
    ensures var t := StateAt(s, inputs, cfg, k).value;
      var shown := Screen(inputs(t.roundCount).screen, t.useless, cfg.minDist);
      id in t.useless && (shown.Some? ==> forall e :: e in shown.value ==> e.uid != id)
  {
    var t := StateAt(s, inputs, cfg, k).value;
    if Screen(inputs(t.roundCount).screen, t.useless, cfg.minDist).Some? {
      ScreenAvoidsUseless(inputs(t.roundCount).screen, t.useless, cfg.minDist);
    }
  }

  /** An element marked useless before a run is not offered on any screen read with the useless set it ends with. */
  lemma BlacklistedOffFinalScreen(s: State, inputs: nat -> RoundInput, cfg: Config, tree: Node, id: string)
    requires s.roundCount <= cfg.maxRounds && id in s.useless
    requires Screen(tree, Rounds(s, inputs, cfg).state.useless, cfg.minDist).Some?
    ensures forall e :: e in Screen(tree, Rounds(s, inputs, cfg).state.useless, cfg.minDist).value ==> e.uid != id
  {
    RoundsFacts(s, inputs, cfg);
    ScreenAvoidsUseless(tree, Rounds(s, inputs, cfg).state.useless, cfg.minDist);
  }

  /** The closing message of the run. */
  datatype Report = Completed | MaxRoundsReached | Unexpected | ProcessCrashed

  /**
   * `task_complete` first, then `round_count == MAX_ROUNDS`, else an
   * unexpected end; an uncaught exception prints nothing.
   */
  function Outcome(a: After, cfg: Config): (r: Report)
    ensures r == ProcessCrashed <==> a.status == Crashed
    ensures r == Completed <==> a.status != Crashed && a.state.taskComplete
    ensures r == MaxRoundsReached <==> a.status != Crashed && !a.state.taskComplete && a.state.roundCount == cfg.maxRounds
  {
    if a.status == Crashed then ProcessCrashed
    else if a.state.taskComplete then Completed
    else if a.state.roundCount == cfg.maxRounds then MaxRoundsReached
    else Unexpected
  }

  /**
   * From the initial state: a run reported complete was stopped by `FINISH`
   * or the picture check, a run that never stopped is reported as reaching
   * the limit, the counter never passes the limit, and at most one document
   * is counted per round.
   */
  lemma RunReport(docs: Store, inputs: nat -> RoundInput, cfg: Config)
    ensures var r := Rounds(Initial(docs), inputs, cfg);
      (Outcome(r, cfg) == Completed ==> r.status == Stopped) &&
      (r.status == Running ==> Outcome(r, cfg) == MaxRoundsReached) &&
      r.state.roundCount <= cfg.maxRounds &&
      r.state.docCount <= r.state.roundCount &&
      Preserves(docs, r.state.docs) && (WellFormed(docs) ==> WellFormed(r.state.docs))
  {
    RoundsFacts(Initial(docs), inputs, cfg);
  }

  // ---------------------------------------------------------------------------
  // The loop as imperative code

  /** The loop's variables and the documentation directory, updated in place round by round. */
  class Session {
    var roundCount: nat
    var docCount: nat
    var useless: set<string>
    var lastAct: string
    var taskComplete: bool
    var docs: Store
    var issued: seq<Command>

    function Snapshot(): State
      reads this
    {
      State(roundCount, docCount, useless, lastAct, taskComplete, docs, issued)
    }

    /** The initialisation before the loop, over the documentation already on disk. */
    constructor(existing: Store)
      ensures Snapshot() == Initial(existing)
    {
      roundCount := 0;
      docCount := 0;
      useless := {};
      lastAct := "None";
      taskComplete := false;
      docs := existing;
      issued := [];
    }

    /** The reflection part of a round on the action at element `uid`. */
    method Reflect(reply: Option<Reflection>, backOk: bool, uid: string, slot: Slot) returns (status: Status)
      modifies this
      ensures After(status, Snapshot()) == ReflectSpec(old(Snapshot()), reply, backOk, uid, slot)
    {
      if reply.None? {
        return Stopped;
      }
      var res := reply.value;
      if res.ReflectFailure? {
        return Stopped;
      }
      if res.Ineffective? {
        useless := useless + {uid};
        lastAct := "None";
        return Running;
      }
      status := Document(res.decision, res.doc, backOk, uid, slot);
    }

    /** The documented decisions: mark, press back, then merge the text into the record. */
    method Document(decision: Decision, doc: string, backOk: bool, uid: string, slot: Slot) returns (status: Status)
      modifies this
      ensures After(status, Snapshot()) == DocumentSpec(old(Snapshot()), decision, doc, backOk, uid, slot)
    {
      if decision == Back || decision == Continue {
        useless := useless + {uid};
        lastAct := "None";
        if decision == Back {
          issued := issued + [BackCmd];
          if !backOk {
            return Stopped;
          }
        }
      }
      status := Store(uid, slot, doc);
    }

    /** Reading the element's record, and writing it back with the new text unless the slot is documented. */
    method Store(uid: string, slot: Slot, doc: string) returns (status: Status)
      modifies this
      ensures After(status, Snapshot()) == StoreSpec(old(Snapshot()), uid, slot, doc)
    {
      var merged := MergeDoc(docs, uid, slot, doc);
      if merged.MergeCrash? {
        return Crashed;
      }
      if merged.Kept? {
        return Running;
      }
      docs := merged.docs;
      docCount := docCount + 1;
      status := Running;
    }

    /** A tap, long press or swipe on `elems[area - 1]`, then the after-screenshot and the reflection. */
    method ActOn(inp: RoundInput, elems: seq<AndroidElement>, act: Act, area: int, width: int)
      returns (status: Status)
      modifies this
      ensures After(status, Snapshot()) == TargetSpec(old(Snapshot()), inp, elems, act, area, width)
    {
      var i := PyIndex(area, |elems|);
      if i.None? {
        return Crashed;
      }
      var target := elems[i.value];
      var cmd := CommandFor(act, Center(target.bbox), width);
      if cmd.None? {
        return Stopped;
      }
      issued := issued + [cmd.value];
      if !inp.actionOk || !inp.afterOk {
        return Stopped;
      }
      var slot := SlotFor(act);
      if slot.None? {
        return Crashed;
      }
      if !ReplacementOk(lastAct) {
        return Crashed;
      }
      var res := Parsed(inp.reflect, ParseReflect);
      status := Reflect(res, inp.backOk, target.uid, slot.value);
    }

    /** The exploration prompt's reply and what the round does with it. */
    method Act(inp: RoundInput, reply: Option<Act>, elems: seq<AndroidElement>, width: int) returns (status: Status)
      modifies this
      ensures After(status, Snapshot()) == ActSpec(old(Snapshot()), inp, reply, elems, width)
    {
      if reply.None? {
        return Stopped;
      }
      var act := reply.value;
      lastAct := LastItem(act);
      if act.Finish? {
        taskComplete := true;
        return Stopped;
      }
      if act.TypeText? {
        issued := issued + [TextCmd(EscapeText(act.input))];
        if !inp.actionOk || !inp.afterOk {
          return Stopped;
        }
        return Running;
      }
      if act.TapAt? || act.LongPressAt? || act.SwipeFrom? {
        status := ActOn(inp, elems, act, act.area, width);
        return;
      }
      return Stopped;
    }

    /** One pass of the loop body. */
    method Round(inp: RoundInput, cfg: Config) returns (status: Status)
      modifies this
      ensures After(status, Snapshot()) == RoundSpec(old(Snapshot()), inp, cfg)
    {
      ghost var s0 := Snapshot();
      if cfg.checkSimilar && roundCount != 0 && inp.similar {
        taskComplete := true;
        return Stopped;
      }
      roundCount := roundCount + 1;
      ghost var s1 := Snapshot();
      assert s1 == s0.(roundCount := s0.roundCount + 1);
      if !inp.captured {
        return Stopped;
      }
      var clickable := TraverseTree(inp.screen, [], "clickable", true, cfg.minDist);
      if clickable.None? {
        return Crashed;
      }
      var focusable := TraverseTree(inp.screen, [], "focusable", true, cfg.minDist);
      if focusable.None? {
        assert Screen(inp.screen, s0.useless, cfg.minDist).None?;
        return Crashed;
      }
      var elems := BuildCandidates(clickable.value, focusable.value, useless, cfg.minDist);
      assert Screen(inp.screen, s0.useless, cfg.minDist) == Some(elems);
      if !ReplacementOk(cfg.taskDesc) || !ReplacementOk(lastAct) {
        return Crashed;
      }
      var reply := Parsed(inp.explore, ParseExplore);
      status := Act(inp, reply, elems, cfg.width);
    }

    /** The exploration loop and its closing report. */
    method Explore(inputs: nat -> RoundInput, cfg: Config) returns (status: Status, report: Report)
      modifies this
      ensures After(status, Snapshot()) == Rounds(old(Snapshot()), inputs, cfg)
      ensures report == Outcome(Rounds(old(Snapshot()), inputs, cfg), cfg)
    {
      status := Running;
      while roundCount < cfg.maxRounds && status == Running
        invariant status == Running ==> Rounds(Snapshot(), inputs, cfg) == Rounds(old(Snapshot()), inputs, cfg)
        invariant status != Running ==> After(status, Snapshot()) == Rounds(old(Snapshot()), inputs, cfg)
        decreases cfg.maxRounds - roundCount, if status == Running then 1 else 0
      {
        ghost var before := Snapshot();
        status := Round(inputs(roundCount), cfg);
        RoundFacts(before, inputs(before.roundCount), cfg);
      }
      report := Outcome(After(status, Snapshot()), cfg);
    }
  }
}
