# A verified model of the exploration agent's core

This project models the core of an Android UI exploration agent. The agent has three parts:

- **Element extraction and identity** (`scripts/and_controller.py`). The accessibility tree dumped from the device is walked in document order. Nodes carrying a capability (`clickable`, `focusable`) are collected as `AndroidElement`s: a string id built from the node's attributes, a bounding box, and the capability. A node is skipped when its centre is within `MIN_DIST` of an element already listed. The pure parts of the controller's gestures are also modelled: the swipe offset table, the long press as a zero-length swipe, text escaping, and the reading of the `wm size` reply.
- **Reply parsers** (`scripts/model.py`). The language model's replies to the exploration, grid and reflection prompts are parsed into tagged results. Each result is the error result, `FINISH`, or an action with its parameters.
- **The exploration loop** (`scripts/self_explorer.py`). Each round:
  - captures the screen and builds the list of candidate elements;
  - performs the action the model chose;
  - asks the model to reflect on the action;
  - records documentation for the element in a store of five-slot records.

  Elements the model judged useless are blacklisted.

Modules, one per file:

- `text.dfy` (`Text`): the Python string operations the source relies on. These are first-occurrence search, `split`, `replace` of one character, `strip`, `[1:-1]`, `int()` and `str()`, with their round trips.
- `ui_tree.dfy` (`UiTree`): the tree, `get_id_from_element`, and `traverse_tree`. `traverse_tree` is an imperative loop over `start`/`end` parse events with a path stack, proved equal to a recursive walk.
- `gestures.dfy` (`Gestures`): swipe, long press, text escaping and device size.
- `replies.dfy` (`Replies`): `parse_explore_rsp`, `parse_grid_rsp` and `parse_reflect_rsp` on the message text.
- `docs.dfy` (`Docs`): the documentation store as `map<string, map<Slot, string>>` and its merge rule.
- `explorer.dfy` (`Explorer`), in two layers:
  - A specification: one round is `RoundSpec` and the whole `while` loop is `Rounds`. Both work on a `State` value holding the loop variables, the store and the commands sent to the device.
  - The imperative loop: the `Session` class, whose methods update those fields in place and are proved equal to the specification.

Device results, screenshots, the picture-similarity check and model replies are inputs: what round `k` receives is `inputs(k)`. An uncaught Python exception (`KeyError`, `ValueError`, `IndexError`) is modelled explicitly:

- as `None` in the pure functions;
- as the `Crashed` status in the loop.

After a `text` action the loop still captures the after-screenshot, so a failure there ends the loop, before it skips the reflection with `continue`.

The prompts are filled in with `re.sub`, which reads the task description and `last_act` as replacement templates. A template `re` rejects (an unknown escape such as `\d`, a group reference, a trailing `\`) raises. The model checks each template with `Text.ReplacementOk` and gives `Crashed` where Python would raise: at the exploration prompt and at the reflection prompt.

## Model

| member | source | states |
|---|---|---|
| Text.SplitJoin | scripts/model.py:112 | `str.split` on a non-empty separator loses nothing: joining the parts with the separator gives the string back |
| Text.StripSpec | scripts/model.py:114-115 | `str.strip` leaves no whitespace at either end, keeps an unpadded string and empties an all-whitespace one |
| Text.ReplacementWithoutBackslash | scripts/self_explorer.py:164-165 | a replacement template without a backslash is always accepted by `re.sub` |
| Text.ReplacementExamples | scripts/self_explorer.py:275-277 | an illustration of the template rule: `\d`, `\1` with no group, a trailing `\`, `\g<1>`, `\g<x>` and `\400` are rejected; `\n`, `\\d`, `\g<0>` and `\101` are accepted |
| Text.ParseIntOfIntToString | scripts/and_controller.py:75-76 | `int` reads back every integer written in decimal, negative ones included |
| UiTree.ParseBounds | scripts/and_controller.py:74-76 | bounds parse only when the text between the outer brackets contains `][` |
| UiTree.ParseFormatBounds | scripts/and_controller.py:74-76 | a bounding box written as `[x1,y1][x2,y2]` is parsed back to the same corners |
| UiTree.NormalizeResourceIdChars | scripts/and_controller.py:78-79 | the resource id is rewritten character by character, `:` to `.` and `/` to `_`, and contains neither afterwards |
| UiTree.NormalizeDesc | scripts/and_controller.py:83 | the description suffix keeps no space, `/` or `:` and is no longer than the description |
| UiTree.NormalizeDescOnePass | scripts/and_controller.py:83 | the three successive replacements equal a single pass that writes `/` and `:` as `_` and drops spaces, character by character |
| UiTree.DescSuffix | scripts/and_controller.py:82-84 | the suffix is present exactly for a non-empty description shorter than 20 characters, and is then `_` plus the normalized text |
| UiTree.BaseIdFromResourceId | scripts/and_controller.py:77-85 | with a non-empty resource id the base id is that id normalized, plus the description suffix |
| UiTree.BaseIdFromClass | scripts/and_controller.py:74-85 | without a resource id the base id is class, width and height joined by `_`, plus the suffix |
| UiTree.BaseId | scripts/and_controller.py:61-85 | an id is produced only for a node whose bounds parse |
| UiTree.BaseIdDefined | scripts/and_controller.py:73-81 | the id is defined exactly when the bounds parse and there is a resource id or a class; otherwise Python raises |
| UiTree.BaseIdDeterministic | scripts/and_controller.py:61-85 | nodes agreeing on bounds, resource id, class and description get the same id |
| UiTree.BaseIdNonEmpty | scripts/and_controller.py:61-85 | a base id is never empty, so a parent's prefix is always used |
| UiTree.ParentPrefix | scripts/and_controller.py:106-108 | the prefix is defined exactly for the root or a parent whose base id is defined |
| UiTree.IndexSuffix | scripts/and_controller.py:116-117 | the index suffix is defined exactly when indices are off or the node has an `index` |
| UiTree.ElementOf | scripts/and_controller.py:105-127 | an element is built exactly when prefix, base id, index and bounds are all defined; it keeps the capability and the parsed box |
| UiTree.ElementUidShape | scripts/and_controller.py:106-117 | the uid is the parent's base id and `_` (non-root only), the node's base id, and `_index` (when indices are on) |
| UiTree.Center | scripts/and_controller.py:112 | the centre is the floor of the midpoint of each coordinate pair |
| UiTree.NearSymmetric | scripts/and_controller.py:121-123 | the distance test `dx²+dy² ≤ MIN_DIST²` is symmetric |
| UiTree.SeparatedAppend | scripts/and_controller.py:118-127 | appending an element whose centre is far from every listed centre keeps the list pairwise separated |
| UiTree.VisitNode | scripts/and_controller.py:105-127 | visiting one node raises exactly when it qualifies and cannot be made into an element; otherwise it appends at most that one element |
| UiTree.VisitQualifying | scripts/and_controller.py:105-127 | a qualifying node ends up covered by the list. The list is either unchanged or has the node's element appended, and it is appended exactly when its centre is far from every earlier element |
| UiTree.Walk | scripts/and_controller.py:101-130 | a walk that does not raise keeps the list it was given as a prefix |
| UiTree.WalkChildren | scripts/and_controller.py:101-130 | walking the remaining children keeps the list it was given as a prefix |
| UiTree.WalkFacts | scripts/and_controller.py:101-130 | a walk only appends; it keeps a separated list separated, covers every qualifying node, and adds only elements built from qualifying nodes |
| UiTree.WalkDefined | scripts/and_controller.py:101-130 | the walk raises exactly when some qualifying node of the tree (or its parent) cannot be made into an element |
| UiTree.RunEvents | scripts/and_controller.py:101-130 | the `start`/`end` event stream of a subtree, with the path stack, has the effect of the recursive walk and restores the stack |
| UiTree.AnyClose | scripts/and_controller.py:118-125 | the early-exit scan reports a close element exactly when some listed centre is within `MIN_DIST` |
| UiTree.ConsiderNode | scripts/and_controller.py:105-127 | the loop body for one `start` event equals the walk's step for that node |
| UiTree.TraverseTree | scripts/and_controller.py:88-130 | the imperative traversal over parse events equals the recursive walk in document order, including where it raises |
| UiTree.TraverseFacts | scripts/and_controller.py:88-130 | existing entries are kept as a prefix, the list stays separated, qualifying nodes are covered, and added elements come from the tree |
| UiTree.TraverseFromEmptySeparated | scripts/and_controller.py:118-127 | from an empty list all accepted centres are pairwise farther apart than `MIN_DIST` |
| Gestures.TruncDiv10 | scripts/and_controller.py:265 | `int(width / 10)` truncates toward zero, for either sign |
| Gestures.UnitDist | scripts/and_controller.py:265-269 | on a screen of non-negative width the offset is between 0 and 3/10 of the width |
| Gestures.Swipe | scripts/and_controller.py:265-283 | a gesture is issued exactly for the four directions. It starts at the given point with duration 100 (quick) or 400. Vertical swipes keep x and horizontal swipes keep y |
| Gestures.SwipeOpposites | scripts/and_controller.py:270-277 | up and down travel equal distances in opposite directions, as do left and right |
| Gestures.SwipeVerticalIsDouble | scripts/and_controller.py:270-277 | a vertical swipe travels twice the distance of a horizontal one |
| Gestures.SwipeLengths | scripts/and_controller.py:265-269 | a unit is `width // 10`; `long` is 3 units, `medium` 2, any other length 1, so the lengths are ordered |
| Gestures.LongPress | scripts/and_controller.py:241-252 | a long press is a swipe from the point to itself, lasting the given duration |
| Gestures.NarrowSwipeIsLongPress | scripts/and_controller.py:265-283 | on a screen narrower than 10 pixels every swipe is a long press of its duration |
| Gestures.EscapeText | scripts/and_controller.py:235-236 | the typed text contains no space and no `'` |
| Gestures.EscapeTextOnePass | scripts/and_controller.py:235-236 | the two successive replacements equal a single character-by-character escaping |
| Gestures.EscapePlainText | scripts/and_controller.py:235-236 | text without spaces or quotes is typed unchanged |
| Gestures.EscapeTextLength | scripts/and_controller.py:235-236 | escaping adds one character per space and removes one per `'` |
| Gestures.DeviceSize | scripts/and_controller.py:159-162 | a failed command gives `(0, 0)` |
| Gestures.DeviceSizeNeedsSeparator | scripts/and_controller.py:161 | a reply without `": "` makes Python raise |
| Gestures.DeviceSizeOfReply | scripts/and_controller.py:161 | a reply `title: WxH` is read back as width `W` and height `H` |
| Replies.Field | scripts/model.py:76-82 | a field is missing exactly when `"<Tag>: "` does not occur; when present it holds no newline |
| Replies.FieldOfFirstLine | scripts/model.py:76-82 | a message whose first line is `"<Tag>: v"` has field `v` |
| Replies.Verb | scripts/model.py:99 | the verb is the prefix of the action before its first `(` |
| Replies.CaptureOf | scripts/model.py:102-111 | the parameter capture of `verb(p)…` is `p`, up to the first `)` |
| Replies.ActionLines | scripts/model.py:76-82 | the action and summary are read exactly when all four fields are present |
| Replies.ParseExplore | scripts/model.py:60-125 | missing fields give the error result; the result is `FINISH` exactly when the action line contains `FINISH`; every action result carries the reply's summary |
| Replies.ParseAction | scripts/model.py:95-121 | `FINISH` anywhere gives `FINISH` and nothing else does; `grid` exactly when the verb is `grid`; typed text is the quoted parameter without its quotes; actions carry the summary |
| Replies.ExploreNeedsAllFields | scripts/model.py:76-82 | a missing Observation, Thought, Action or Summary line gives the error result |
| Replies.ExploreFinishWins | scripts/model.py:96-97 | `FINISH` anywhere in the action gives `FINISH`, whatever else the action says |
| Replies.ActionVerbDecides | scripts/model.py:99-121 | every action result comes from an action without `FINISH` whose verb names that result, and carries the summary |
| Replies.ActionUnknownVerb | scripts/model.py:117-121 | a verb other than tap, text, long_press, swipe and grid gives the error result |
| Replies.ActionTargetNeedsInt | scripts/model.py:101-109 | a tap or long press whose target is not an integer gives the error result |
| Replies.ActionSwipeNeedsThree | scripts/model.py:110-112 | a swipe without exactly three parameters gives the error result |
| Replies.FlyIsUnknown | scripts/model.py:119-121 | an illustration of `ActionUnknownVerb`: `fly(3)` gives the error result |
| Replies.TapRoundTrip | scripts/model.py:101-103 | `tap(N)` is read back as a tap on target `N` with the reply's summary |
| Replies.TextRoundTrip | scripts/model.py:104-106 | `text("s")` is read back as typing `s`, the quotes dropped |
| Replies.LongPressRoundTrip | scripts/model.py:107-109 | `long_press(N)` is read back as a long press on target `N` with the reply's summary |
| Replies.SwipeRoundTrip | scripts/model.py:110-116 | `swipe(N, "d", "l")`, with `d` and `l` free of `,` and `)` and the action free of `FINISH`, is read back as a swipe from target `N` in direction `d` over length `l`, with the summary |
| Replies.LastItem | scripts/model.py:97-121 | `res[-1]` is the summary, or the verb word for the one-item results |
| Replies.ParseGrid | scripts/model.py:127-194 | missing fields give the error result; the result is `FINISH` exactly when the action line contains `FINISH`; every cell action carries the reply's summary |
| Replies.ParseGridAction | scripts/model.py:162-190 | `FINISH` anywhere gives `FINISH` and nothing else does; `grid` exactly when the verb is `grid`; cell actions carry the summary |
| Replies.GridFieldsAndFinish | scripts/model.py:143-164 | a grid reply without all four fields gives the error result; one whose action has `FINISH` finishes |
| Replies.GridNeedsParams | scripts/model.py:168-182 | a grid tap or long press needs two parameters and a grid swipe four; with fewer the result is the error |
| Replies.GridVerbDecides | scripts/model.py:166-187 | each grid result comes from the matching verb and an action without `FINISH`, and carries the cell numbers and subareas read from the parameters (stripped, integers via `int`, subareas without their quotes) and the summary |
| Replies.GridTapRoundTrip | scripts/model.py:168-172 | `tap(N, "s")`, with `s` free of `,` and `)` and the action free of `FINISH`, is read back as a tap on cell `N`, subarea `s`, with the summary |
| Replies.GridLongPressRoundTrip | scripts/model.py:173-177 | `long_press(N, "s")`, with `s` free of `,` and `)` and the action free of `FINISH`, is read back as a long press on cell `N`, subarea `s`, with the summary |
| Replies.GridSwipeRoundTrip | scripts/model.py:178-184 | `swipe(N, "s", M, "t")`, with `s` and `t` free of `,` and `)` and the action free of `FINISH`, is read back as a swipe from cell `N`, subarea `s`, to cell `M`, subarea `t`, with the summary |
| Replies.DecisionOf | scripts/model.py:225 | exactly `BACK`, `CONTINUE` and `SUCCESS`, compared case-sensitively, carry documentation |
| Replies.ParseReflect | scripts/model.py:196-240 | a non-error result has a Decision field and its thought is the Thought field; ineffective exactly for `Decision: INEFFECTIVE` with a thought; a documented result carries the decision and the Documentation field |
| Replies.ReflectDecisionTable | scripts/model.py:222-236 | `INEFFECTIVE` gives its thought. The three documented decisions give decision, thought and documentation, or the error result when `Documentation:` is missing. Every other decision is the error result |
| Replies.ReflectNeedsFields | scripts/model.py:212-214 | a missing Decision or Thought line gives the error result |
| Replies.ReflectIneffectiveRoundTrip | scripts/model.py:212-223 | `Decision: INEFFECTIVE` followed by a Thought line is read as ineffective with that thought |
| Docs.EmptyRecord | scripts/self_explorer.py:348-355 | a new record has all five slots empty |
| Docs.MergeDoc | scripts/self_explorer.py:340-357 | a merge raises exactly when an existing record lacks the slot. It keeps the store exactly when the slot is already non-empty. Otherwise it writes the text into that slot |
| Docs.MergeChangesOneSlot | scripts/self_explorer.py:340-357 | a write changes only the chosen slot of the chosen record; a new record has its other slots empty |
| Docs.MergePreserves | scripts/self_explorer.py:344-347 | no existing non-empty documentation is ever overwritten |
| Docs.MergeWellFormed | scripts/self_explorer.py:340-357 | on complete records a merge never raises and keeps every record complete |
| Docs.MergeFirstWriteWins | scripts/self_explorer.py:344-347 | after a non-empty text is written, documenting the same slot again keeps it |
| Docs.MergeFills | scripts/self_explorer.py:357-362 | a write of a non-empty text documents exactly one new (element, slot) pair; a write of empty text documents none |
| Explorer.Candidates | scripts/self_explorer.py:133-158 | the kept clickables are a prefix of the candidate list, which is no longer than the two lists together |
| Explorer.CandidatesMembers | scripts/self_explorer.py:133-158 | the candidates are exactly the non-blacklisted clickables, plus the non-blacklisted focusables farther than `MIN_DIST` from every element of the full clickable list |
| Explorer.CandidatesLayout | scripts/self_explorer.py:135-158 | the kept clickables come first and the kept focusables after them |
| Explorer.CandidatesAvoidUseless | scripts/self_explorer.py:135-142 | no blacklisted element is a candidate |
| Explorer.BuildCandidates | scripts/self_explorer.py:133-158 | the two filtering loops, including the inner distance scan, build exactly the candidate list |
| Explorer.Screen | scripts/self_explorer.py:127-158 | a screen gives a list exactly when both traversals, clickable and focusable, succeed |
| Explorer.CandidatesSeparated | scripts/self_explorer.py:133-158 | from separated clickable and focusable lists the candidate list is separated: centres pairwise farther apart than `MIN_DIST` |
| Explorer.ScreenSeparated | scripts/self_explorer.py:127-158 | the list offered on a screen is pairwise separated by more than `MIN_DIST` |
| Explorer.ScreenAvoidsUseless | scripts/self_explorer.py:127-158 | the list offered on a screen has no element marked useless |
| Explorer.PyIndex | scripts/self_explorer.py:205 | `elem_list[area - 1]` uses Python indexing: it counts from the front for `area ≥ 1`, from the back for `area ≤ 0`, and raises outside |
| Explorer.PyIndexFromBack | scripts/self_explorer.py:205 | an illustration of `PyIndex`: target `0` is the last candidate, and `len + 1` raises |
| Explorer.CommandFor | scripts/self_explorer.py:203-235 | tap and long press act at the target's centre; a swipe issues a command exactly for a valid direction, and that gesture starts at the target's centre, is not quick (400 ms) and is the controller's swipe; only these three actions issue a command |
| Explorer.SlotFor | scripts/self_explorer.py:258-269 | tap and long press document their own slot; up/down swipes use `v_swipe` and left/right swipes `h_swipe` |
| Explorer.ReflectSpec | scripts/self_explorer.py:301-371 | a reflection leaves the counter and `task_complete` alone, blacklists at most the reflected element and counts at most one document; an error reply or the error result stops with the state unchanged |
| Explorer.DocumentSpec | scripts/self_explorer.py:322-362 | `SUCCESS` keeps the blacklist and `last_act`; `BACK` and `CONTINUE` blacklist the element and reset `last_act`; only `BACK` issues a command, the back press |
| Explorer.StoreSpec | scripts/self_explorer.py:334-362 | the store write changes only the store and `doc_count`, which rises by at most one; it crashes exactly when the merge raises |
| Explorer.TargetSpec | scripts/self_explorer.py:203-371 | a target outside Python's index range crashes before anything is sent; the counter and `task_complete` stay and at most one document is counted |
| Explorer.ActSpec | scripts/self_explorer.py:194-371 | the counter stays; `task_complete` is set exactly by `FINISH` (or kept), and `FINISH` stops |
| Explorer.RoundSpec | scripts/self_explorer.py:98-372 | a round advances the counter by at most one, and by exactly one when the loop goes on; a round that does not advance it is the picture check's stop with `task_complete` set |
| Explorer.ReflectFacts | scripts/self_explorer.py:301-371 | a reflection only grows the state. At most the reflected element becomes useless and at most one document is counted. On complete records it never raises |
| Explorer.StoreCountsWrites | scripts/self_explorer.py:344-362 | `doc_count` grows by one exactly when a record is written; an already documented slot changes nothing |
| Explorer.IneffectiveWritesNothing | scripts/self_explorer.py:318-320 | `INEFFECTIVE` blacklists the element and goes on, with no document and no command |
| Explorer.BackFailureStops | scripts/self_explorer.py:324-332 | `BACK` presses back. When that fails the loop ends after blacklisting and before any document is written |
| Explorer.SuccessKeepsElement | scripts/self_explorer.py:322-336 | `SUCCESS` keeps the element on offer, and keeps `last_act` and the command log |
| Explorer.RejectedElementMarked | scripts/self_explorer.py:318-326 | `INEFFECTIVE`, `BACK` and `CONTINUE` blacklist the element and reset `last_act` |
| Explorer.TextRoundSkipsReflection | scripts/self_explorer.py:212-261 | a text round sends only the escaped text and goes on, without blacklisting or documenting |
| Explorer.FinishCompletes | scripts/self_explorer.py:194-201 | `FINISH` sets `last_act` and `task_complete` and stops, changing nothing else |
| Explorer.ReflectFailureStops | scripts/self_explorer.py:301-317 | an error reply or an undefined decision stops the loop with the state unchanged |
| Explorer.ContinueNoBack | scripts/self_explorer.py:322-332 | `CONTINUE` blacklists the element and issues no command; whether the back press would succeed does not matter |
| Explorer.BadTemplateCrashes | scripts/self_explorer.py:163-165 | a task description or `last_act` that `re.sub` rejects as a template crashes the round at the exploration prompt, after the counter advanced |
| Explorer.PlainTextsReachReply | scripts/self_explorer.py:163-194 | with no backslash in the task description or `last_act`, a round that captured a screen goes on to the model's reply |
| Explorer.BadSummaryCrashesReflection | scripts/self_explorer.py:203-277 | after a tap, long press or swipe was sent, a `last_act` that `re.sub` rejects crashes at the reflection prompt |
| Explorer.StopsWithoutCompletion | scripts/self_explorer.py:194-244 | an error reply, the error result and `grid` end the loop without completion and without a command |
| Explorer.Initial | scripts/self_explorer.py:90-94 | the run starts with no rounds, no documents, nothing useless, `last_act` `"None"` and the task not complete |
| Explorer.KeepClickableMembers | scripts/self_explorer.py:135-138 | the first filter keeps exactly the clickable elements not marked useless |
| Explorer.KeepFocusableMembers | scripts/self_explorer.py:140-158 | the second filter keeps exactly the focusable elements not marked useless whose centre is farther than `MIN_DIST` from every clickable centre |
| Explorer.CommandHasSlot | scripts/self_explorer.py:228-269 | every action that reached the device has a slot to document; an unknown swipe direction never gets that far |
| Explorer.DocumentFacts | scripts/self_explorer.py:322-362 | `BACK`, `CONTINUE` and `SUCCESS` grow the state, blacklist at most the element and count at most one document; on complete records they never raise |
| Explorer.StoreFacts | scripts/self_explorer.py:334-362 | the merge keeps the blacklist, grows the state, counts at most one document and never raises on complete records |
| Explorer.TargetFacts | scripts/self_explorer.py:203-371 | acting on a target grows the state, counts at most one document and leaves the counter and `task_complete` alone |
| Explorer.ActFacts | scripts/self_explorer.py:194-371 | the part of a round after the exploration reply grows the state; `task_complete` changes only with a stop |
| Explorer.RoundFacts | scripts/self_explorer.py:98-372 | a round grows the state. It counts at most one document, and only in a round that advanced the counter. A round that goes on advanced the counter by exactly one. `task_complete` is set only together with a stop |
| Explorer.Rounds | scripts/self_explorer.py:98-372 | a run that starts within `MAX_ROUNDS` ends within it, and a run still going ends at the limit |
| Explorer.RoundsFacts | scripts/self_explorer.py:98-372 | over a run the state grows and the counter never passes `MAX_ROUNDS`. `doc_count` rises by at most one per round. A run that is never stopped ends at the limit. Completion comes only with a stop |
| Explorer.StateAt | scripts/self_explorer.py:98-372 | the state before the `k`-th later round, when the loop gets there, has grown from the starting state, has counted `k` more rounds and, after at least one round, is within `MAX_ROUNDS` |
| Explorer.BlacklistedNeverOffered | scripts/self_explorer.py:135-142 | an element blacklisted before round `k` stays blacklisted, and the list the `k`-th later round offers on its screen does not contain it |
| Explorer.BlacklistedOffFinalScreen | scripts/self_explorer.py:135-142 | an element blacklisted before a run is not offered on any screen read with the blacklist the run ends with |
| Explorer.Outcome | scripts/self_explorer.py:375-381 | the report is "completed" when `task_complete`, else "max rounds" when `round_count == MAX_ROUNDS`, else "unexpected"; a crash reports nothing |
| Explorer.RunReport | scripts/self_explorer.py:90-381 | from the initial state, "completed" comes only with a stop and a run never stopped reports "max rounds". The counter stays within the limit and `doc_count ≤ round_count`. Existing documentation is preserved |
| Explorer.Session.constructor | scripts/self_explorer.py:90-94 | the fields start as `Initial` gives, over the documentation already present |
| Explorer.Session.Reflect | scripts/self_explorer.py:301-371 | the reflection updates the fields as `ReflectSpec` says |
| Explorer.Session.Document | scripts/self_explorer.py:322-362 | the documented decisions update the fields as `DocumentSpec` says |
| Explorer.Session.Store | scripts/self_explorer.py:334-362 | reading and writing the element's record updates the fields as `StoreSpec` says |
| Explorer.Session.ActOn | scripts/self_explorer.py:203-371 | an action on a target, the after-screenshot and the reflection update the fields as `TargetSpec` says |
| Explorer.Session.Act | scripts/self_explorer.py:194-371 | the handling of the exploration reply updates the fields as `ActSpec` says |
| Explorer.Session.Round | scripts/self_explorer.py:98-372 | one pass of the loop body updates the fields as `RoundSpec` says |
| Explorer.Session.Explore | scripts/self_explorer.py:98-381 | the loop leaves the fields as `Rounds` says, and returns the report `Outcome` gives |

## Left out

- Device I/O: `execute_adb`, `list_all_devices`, screenshots, XML dumps and the adb command strings. What these return is an input of each round (`RoundInput`); a command is recorded as a `Command` value.
- `ask_gpt4v`, the HTTP call to the model. Its reply is an input: an error reply or the message text.
- The picture-similarity check (SSIM, floats) and the spread-sheet write-back: an input flag `similar`, consulted only from the second round on and only when the check is enabled.
- Argument parsing, directory set-up, device selection, JSON log writes, `draw_bbox_multi`, `encode_image` and `time.sleep`.
- The prompt texts: `lastAct` is kept in the state and a template `re.sub` rejects crashes the loop, but what a valid substitution makes the model reply is part of the model's input.
- `re.sub` templates follow Python 3.12's rules (`Text.ReplacementOk`). The text of the substituted prompt is not modelled, only whether the substitution raises.
- `swipe_precise`: it is not called by the loop. Its command passes `start_x` where `start_y` belongs.
- The documentation files' text format (`str` and `ast.literal_eval`): the store is a map from element id to record. A malformed file on disk is not modelled.
- The inputs are indexed by round: a device or model that answers differently depending on earlier commands is covered only in that each round's answers are arbitrary.
- General regular expressions: the patterns used are modelled as "first occurrence of the tag, up to the end of that line" and "first `verb(`, up to the first `)` after it". Since actions hold no newline, the patterns behave the same on them.
- `int()` is modelled as skipping the ASCII whitespace ` \t\n\v\f\r` and the non-ASCII whitespace characters (but not U+001C–U+001F, which `str.strip` does remove), then an optional sign and ASCII digits. Underscores between digits and non-ASCII digits are not modelled.
- Gestures.TruncDiv10: `int(width / 10)` goes through a float, whose rounding for very large widths is not modelled.
- The distance tests use the integer form `dx² + dy² ≤ MIN_DIST²` for a non-negative integer `MIN_DIST`, instead of the float square root.
- Grid-mode actions are parsed (`Replies.ParseGrid`) but the loop does not act on them, as in the source (`grid` ends the loop).
- Replies.ReflectIneffectiveRoundTrip: covers only replies whose first line is the Decision line and whose second is the Thought line. Other orders are covered by `Replies.ReflectDecisionTable`, which starts from the field values.
- Replies.SwipeRoundTrip: covers only quoted parameters without `,` or `)` and actions without `FINISH`, because a `,` splits the parameter, a `)` ends the capture and `FINISH` wins.
- Replies.GridTapRoundTrip: covers only quoted parameters without `,` or `)` and actions without `FINISH`, because a `,` splits the parameter, a `)` ends the capture and `FINISH` wins.
- Replies.GridLongPressRoundTrip: covers only quoted parameters without `,` or `)` and actions without `FINISH`, because a `,` splits the parameter, a `)` ends the capture and `FINISH` wins.
- Replies.GridSwipeRoundTrip: covers only quoted parameters without `,` or `)` and actions without `FINISH`, because a `,` splits the parameter, a `)` ends the capture and `FINISH` wins.
- Replies.TextRoundTrip: covers only text with no `)` and no `FINISH`. The capture stops at the first `)`, and an action containing `FINISH` is read as `FINISH`.
