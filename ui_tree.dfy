/**
 * Element extraction from an accessibility-tree snapshot (and_controller.py):
 * the element record, the identifier built from a node's attributes, and the
 * walk over the tree's start/end events that collects the nodes carrying a
 * capability, dropping any whose centre is within the minimum distance of an
 * element already collected.
 */
module UiTree {
  import opened Text

  /** One node of the tree: its attribute map and its children in document order. */
  datatype Node = Node(attrs: map<string, string>, children: seq<Node>)

  datatype Point = Point(x: int, y: int)

  /** A bounding box `((x1, y1), (x2, y2))`. */
  datatype BBox = BBox(topLeft: Point, bottomRight: Point)

  /** `AndroidElement`: identifier, bounding box and the capability it was found by. */
  datatype AndroidElement = AndroidElement(uid: string, bbox: BBox, attrib: string)

  /** Parses a `bounds` value `"[x1,y1][x2,y2]"`; `None` where Python raises. */
  function ParseBounds(b: string): (r: Option<BBox>)
    ensures r.Some? ==> Contains(Inner(b), "][")
  {
    var parts := Split(Inner(b), "][");
    if |parts| < 2 then None
    else
      var p := Split(parts[0], ",");
      var q := Split(parts[1], ",");
      if |p| != 2 || |q| != 2 then None
      else
        var x1 :- ParseInt(p[0]);
        var y1 :- ParseInt(p[1]);
        var x2 :- ParseInt(q[0]);
        var y2 :- ParseInt(q[1]);
        Some(BBox(Point(x1, y1), Point(x2, y2)))
  }

  /** The form in which the tree writes a bounding box. */
  function FormatBounds(b: BBox): string
  {
    "[" + FormatCorner(b.topLeft) + "][" + FormatCorner(b.bottomRight) + "]"
  }

  /** `"x,y"`, one corner as the tree writes it. */
  function FormatCorner(p: Point): string
  {
    IntToString(p.x) + "," + IntToString(p.y)
  }

  /** A corner splits on `,` into two parts that parse back to its coordinates, and has no `][`. */
  lemma ParseFormatCorner(p: Point)
    ensures var parts := Split(FormatCorner(p), ",");
      |parts| == 2 && ParseInt(parts[0]) == Some(p.x) && ParseInt(parts[1]) == Some(p.y)
    ensures Avoids(FormatCorner(p), "][")
  {
    var sx, sy := IntToString(p.x), IntToString(p.y);
    IntToStringAvoids(p.x, ",");
    IntToStringAvoids(p.y, ",");
    SplitPair(sx, sy);
    ParseIntOfIntToString(p.x);
    ParseIntOfIntToString(p.y);
    CornerAvoids(p);
  }

  /** `"a,b".split(",") == [a, b]` when neither part contains a comma. */
  lemma SplitPair(a: string, b: string)
    requires Avoids(a, ",") && Avoids(b, ",")
    ensures Split(a + "," + b, ",") == [a, b]
  {
    SplitAfterAvoiding(a, ",", b);
    SplitAvoiding(b, ",");
  }

  lemma CornerAvoids(p: Point)
    ensures Avoids(FormatCorner(p), "][")
  {
    IntToStringAvoids(p.x, "][");
    IntToStringAvoids(p.y, "][");
    AvoidsJoin(IntToString(p.x), ",", IntToString(p.y), "][");
  }

  lemma AvoidsJoin(a: string, sep: string, b: string, pat: string)
    requires Avoids(a, pat) && Avoids(sep, pat) && Avoids(b, pat)
    ensures Avoids(a + sep + b, pat)
  {
    var s := a + sep + b;
    forall k | 0 <= k < |s| ensures s[k] !in pat {
      if k < |a| { assert s[k] == a[k]; }
      else if k < |a| + |sep| { assert s[k] == sep[k - |a|]; }
      else { assert s[k] == b[k - |a| - |sep|]; }
    }
  }

  /** Every bounding box written in the tree's form is read back unchanged. */
  lemma ParseFormatBounds(b: BBox)
    ensures ParseBounds(FormatBounds(b)) == Some(b)
  {
    var first, second := FormatCorner(b.topLeft), FormatCorner(b.bottomRight);
    ParseFormatCorner(b.topLeft);
    ParseFormatCorner(b.bottomRight);
    SplitBracketed(first, second);
    assert FormatBounds(b) == "[" + first + "][" + second + "]";
    ParseBoundsOfCorners(FormatBounds(b), b.topLeft, b.bottomRight);
  }

  lemma SplitBracketed(first: string, second: string)
    requires Avoids(first, "][") && Avoids(second, "][")
    ensures Split(Inner("[" + first + "][" + second + "]"), "][") == [first, second]
  {
    InnerOfBracketed(first, second);
    SplitAfterAvoiding(first, "][", second);
    SplitAvoiding(second, "][");
  }

  lemma InnerOfBracketed(a: string, c: string)
    ensures Inner("[" + a + "][" + c + "]") == a + "][" + c
  {
    var inner := a + "][" + c;
    InnerOfWrapped('[', inner, ']');
    assert "[" + a + "][" + c + "]" == ['['] + inner + [']'];
  }

  lemma ParseBoundsOfCorners(s: string, p: Point, q: Point)
    requires Split(Inner(s), "][") == [FormatCorner(p), FormatCorner(q)]
    ensures ParseBounds(s) == Some(BBox(p, q))
  {
    ParseFormatCorner(p);
    ParseFormatCorner(q);
  }

  /** A resource id with `:` written as `.` and `/` as `_`. */
  function NormalizeResourceId(rid: string): (r: string)
    ensures |r| == |rid|
  {
    ReplaceChar(ReplaceChar(rid, ':', "."), '/', "_")
  }

  /** Normalizing maps each character on its own, and leaves neither `:` nor `/`. */
  lemma NormalizeResourceIdChars(rid: string)
    ensures var r := NormalizeResourceId(rid);
      forall k :: 0 <= k < |rid| ==>
        r[k] == (if rid[k] == ':' then '.' else if rid[k] == '/' then '_' else rid[k])
    ensures ':' !in NormalizeResourceId(rid) && '/' !in NormalizeResourceId(rid)
  {
    ReplaceCharPointwise(rid, ':', ".");
    ReplaceCharPointwise(ReplaceChar(rid, ':', "."), '/', "_");
  }

  /** A content description with `/` and `:` written as `_` and its spaces removed. */
  function NormalizeDesc(desc: string): (r: string)
    ensures ' ' !in r && '/' !in r && ':' !in r
    ensures |r| <= |desc|
  {
    var a := ReplaceChar(desc, '/', "_");
    var b := ReplaceChar(a, ' ', "");
    ReplaceCharRemoves(desc, '/', "_");
    ReplaceCharRemoves(a, ' ', "");
    ReplaceCharRemoves(b, ':', "_");
    ReplaceCharDeleteLength(a, ' ');
    ReplaceCharKeepsOut(a, ' ', "", '/');
    ReplaceCharKeepsOut(b, ':', "_", ' ');
    ReplaceCharKeepsOut(b, ':', "_", '/');
    ReplaceChar(b, ':', "_")
  }

  /** The description normalized in one pass: `/` and `:` become `_`, spaces are dropped. */
  function DescOnePass(s: string): string
  {
    if s == "" then ""
    else (if s[0] == '/' || s[0] == ':' then "_" else if s[0] == ' ' then "" else [s[0]]) + DescOnePass(s[1..])
  }

  /** The three successive replacements equal the one-pass normalization: `_` is never replaced again. */
  lemma {:induction false} NormalizeDescOnePass(desc: string)
    ensures NormalizeDesc(desc) == DescOnePass(desc)
  {
    if desc != "" {
      NormalizeDescOnePass(desc[1..]);
      var h1 := if desc[0] == '/' then "_" else [desc[0]];
      var t1 := ReplaceChar(desc[1..], '/', "_");
      assert ReplaceChar(desc, '/', "_") == h1 + t1;
      ReplaceCharAppend(h1, t1, ' ', "");
      var h2 := ReplaceChar(h1, ' ', "");
      var t2 := ReplaceChar(t1, ' ', "");
      assert h2 == (if desc[0] == '/' then "_" else if desc[0] == ' ' then "" else [desc[0]]);
      ReplaceCharAppend(h2, t2, ':', "_");
      assert ReplaceChar(h2, ':', "_") ==
        (if desc[0] == '/' || desc[0] == ':' then "_" else if desc[0] == ' ' then "" else [desc[0]]);
    }
  }

  /** The value of attribute `key` of `n`, if present. */
  function Attr(n: Node, key: string): Option<string>
  {
    if key in n.attrs then Some(n.attrs[key]) else None
  }

  /** The `_desc` suffix: present only for a non-empty description of fewer than 20 characters. */
  function DescSuffix(desc: Option<string>): (r: string)
    ensures r != "" <==> desc.Some? && 0 < |desc.value| < 20
    ensures r != "" ==> r == "_" + NormalizeDesc(desc.value)
  {
    if desc.Some? && desc.value != "" && |desc.value| < 20 then "_" + NormalizeDesc(desc.value) else ""
  }

  /** The node's parsed `bounds`; `None` where Python raises (missing or malformed). */
  function BoundsOf(n: Node): Option<BBox>
  {
    var text :- Attr(n, "bounds");
    ParseBounds(text)
  }

  /**
   * `get_id_from_element` on what it reads: the parsed bounds, the resource id,
   * the class and the description. The resource id, normalized, or else the
   * class with width and height, then the description suffix. `None` where
   * Python raises (no parsable bounds, or neither a resource id nor a class).
   */
  function IdFromAttrs(bounds: Option<BBox>, rid: Option<string>, cls: Option<string>, desc: Option<string>): (r: Option<string>)
    ensures r.Some? ==> bounds.Some?
  {
    match bounds
    case None => None
    case Some(b) =>
      if rid.Some? && rid.value != "" then Some(NormalizeResourceId(rid.value) + DescSuffix(desc))
      else if cls.Some? then Some(ClassId(cls.value, b) + DescSuffix(desc))
      else None
  }

  /** `f"{class}_{elem_w}_{elem_h}"` */
  function ClassId(cls: string, b: BBox): string
  {
    cls + "_" + IntToString(b.bottomRight.x - b.topLeft.x) + "_" + IntToString(b.bottomRight.y - b.topLeft.y)
  }

  /** `get_id_from_element(elem)`: the base id of a node. */
  function BaseId(n: Node): (r: Option<string>)
    ensures r.Some? ==> BoundsOf(n).Some?
  {
    IdFromAttrs(BoundsOf(n), Attr(n, "resource-id"), Attr(n, "class"), Attr(n, "content-desc"))
  }

  /** With a non-empty resource id the base id is that id normalized, plus the description suffix. */
  lemma BaseIdFromResourceId(n: Node)
    requires BoundsOf(n).Some?
    requires Attr(n, "resource-id").Some? && Attr(n, "resource-id").value != ""
    ensures BaseId(n) == Some(NormalizeResourceId(Attr(n, "resource-id").value) + DescSuffix(Attr(n, "content-desc")))
  {
  }

  /** Without a resource id the base id is class, width and height joined by `_`, plus the suffix. */
  lemma BaseIdFromClass(n: Node, b: BBox)
    requires BoundsOf(n) == Some(b)
    requires Attr(n, "resource-id").None? || Attr(n, "resource-id").value == ""
    requires Attr(n, "class").Some?
    ensures BaseId(n) == Some(ClassId(Attr(n, "class").value, b) + DescSuffix(Attr(n, "content-desc")))
  {
  }

  /** Python raises exactly when the bounds are missing or malformed or there is neither resource id nor class. */
  lemma BaseIdDefined(n: Node)
    ensures BaseId(n).Some? <==>
      BoundsOf(n).Some? &&
      ((Attr(n, "resource-id").Some? && Attr(n, "resource-id").value != "") || Attr(n, "class").Some?)
  {
  }

  /** The id depends only on the four attributes it reads: nodes agreeing on them get equal ids. */
  lemma BaseIdDeterministic(n: Node, m: Node)
    requires Attr(n, "bounds") == Attr(m, "bounds") && Attr(n, "resource-id") == Attr(m, "resource-id")
    requires Attr(n, "class") == Attr(m, "class") && Attr(n, "content-desc") == Attr(m, "content-desc")
    ensures BaseId(n) == BaseId(m)
  {
  }

  /** A base id is never empty, so `if parent_prefix:` always holds for a parent that has one. */
  lemma BaseIdNonEmpty(n: Node)
    ensures BaseId(n).Some? ==> BaseId(n).value != ""
  {
  }

  /** The node carries capability `cap` set to exactly `"true"`. */
  predicate Qualifies(n: Node, cap: string)
  {
    cap in n.attrs && n.attrs[cap] == "true"
  }

  /** The parent's base id and `_`, or nothing for the root; `None` where Python raises. */
  function ParentPrefix(parent: Option<Node>): (r: Option<string>)
    ensures r.Some? <==> parent.None? || BaseId(parent.value).Some?
  {
    if parent.None? then Some("")
    else
      var p :- BaseId(parent.value);
      Some(p + "_")
  }

  /** `_index` when `addIndex` is set; `None` where Python raises. */
  function IndexSuffix(n: Node, addIndex: bool): (r: Option<string>)
    ensures r.Some? <==> !addIndex || "index" in n.attrs
  {
    if !addIndex then Some("")
    else if "index" in n.attrs then Some("_" + n.attrs["index"])
    else None
  }

  /**
   * The element `traverse_tree` builds for a qualifying node `n` whose parent
   * is `parent`: the parent's base id and `_` in front (whatever the parent's
   * capabilities), then `_index` when `addIndex`. `None` where Python raises:
   * the parent's or the node's id cannot be built, or `index` is missing.
   */
  function ElementOf(n: Node, parent: Option<Node>, cap: string, addIndex: bool): (r: Option<AndroidElement>)
    ensures r.Some? <==>
      (parent.Some? ==> BaseId(parent.value).Some?) && BaseId(n).Some? &&
      (addIndex ==> "index" in n.attrs)
    ensures r.Some? ==> r.value.attrib == cap && BoundsOf(n) == Some(r.value.bbox)
  {
    var prefix :- ParentPrefix(parent);
    var own :- BaseId(n);
    var suffix :- IndexSuffix(n, addIndex);
    Some(AndroidElement(prefix + own + suffix, BoundsOf(n).value, cap))
  }

  /**
   * The id of a non-root node starts with its parent's base id and `_`, then
   * the node's own base id, and ends with `_index` exactly when `addIndex`.
   */
  lemma ElementUidShape(n: Node, parent: Option<Node>, cap: string, addIndex: bool, e: AndroidElement)
    requires ElementOf(n, parent, cap, addIndex) == Some(e)
    ensures var own := BaseId(n).value;
      (parent.None? && !addIndex ==> e.uid == own) &&
      (parent.None? && addIndex ==> e.uid == own + "_" + n.attrs["index"]) &&
      (parent.Some? && !addIndex ==> e.uid == BaseId(parent.value).value + "_" + own) &&
      (parent.Some? && addIndex ==> e.uid == BaseId(parent.value).value + "_" + own + "_" + n.attrs["index"])
  {
    var prefix, own, suffix := ParentPrefix(parent).value, BaseId(n).value, IndexSuffix(n, addIndex).value;
    ElementUid(n, parent, cap, addIndex, e);
    if parent.Some? {
      var p := BaseId(parent.value).value;
      if addIndex { JoinThree(p, own, n.attrs["index"]); } else { JoinTwo(p, own); }
    } else if addIndex {
      JoinTwo(own, n.attrs["index"]);
    }
  }

  lemma ElementUid(n: Node, parent: Option<Node>, cap: string, addIndex: bool, e: AndroidElement)
    requires ElementOf(n, parent, cap, addIndex) == Some(e)
    ensures e.uid == ParentPrefix(parent).value + BaseId(n).value + IndexSuffix(n, addIndex).value
  {
  }

  lemma JoinThree(a: string, b: string, c: string)
    ensures (a + "_") + b + ("_" + c) == a + "_" + b + "_" + c
  {
  }

  lemma JoinTwo(a: string, b: string)
    ensures (a + "_") + b + "" == a + "_" + b
    ensures "" + a + ("_" + b) == a + "_" + b
  {
  }

  /** Integer midpoint of a box, as `(x1 + x2) // 2, (y1 + y2) // 2`. */
  function Center(b: BBox): (c: Point)
    ensures 2 * c.x <= b.topLeft.x + b.bottomRight.x < 2 * c.x + 2
    ensures 2 * c.y <= b.topLeft.y + b.bottomRight.y < 2 * c.y + 2
  {
    Point((b.topLeft.x + b.bottomRight.x) / 2, (b.topLeft.y + b.bottomRight.y) / 2)
  }

  /** The square of `d`. */
  function Sq(d: int): (r: nat)
  {
    if d >= 0 then d * d else (-d) * (-d)
  }

  /** Squared Euclidean distance between two points. */
  function DistSq(p: Point, q: Point): nat
  {
    Sq(p.x - q.x) + Sq(p.y - q.y)
  }

  /** Euclidean distance at most `minDist`, as `dx*dx + dy*dy <= minDist*minDist`. */
  predicate Near(p: Point, q: Point, minDist: nat)
  {
    DistSq(p, q) <= Sq(minDist)
  }

  lemma NearSymmetric(p: Point, q: Point, minDist: nat)
    ensures Near(p, q, minDist) <==> Near(q, p, minDist)
  {
    assert Sq(p.x - q.x) == Sq(q.x - p.x);
    assert Sq(p.y - q.y) == Sq(q.y - p.y);
  }

  lemma NearSelf(p: Point, minDist: nat)
    ensures Near(p, p, minDist)
  {
    assert DistSq(p, p) == 0;
  }

  /** The centre `c` is farther than `minDist` from the centre of every listed element. */
  predicate FarFromAll(c: Point, elems: seq<AndroidElement>, minDist: nat)
  {
    forall k :: 0 <= k < |elems| ==> !Near(c, Center(elems[k].bbox), minDist)
  }

  /** Some listed element has its centre within `minDist` of `c`. */
  predicate Covered(c: Point, elems: seq<AndroidElement>, minDist: nat)
  {
    exists k :: 0 <= k < |elems| && Near(c, Center(elems[k].bbox), minDist)
  }

  /** Any two listed centres are more than `minDist` apart. */
  predicate Separated(elems: seq<AndroidElement>, minDist: nat)
  {
    forall i, j :: 0 <= i < j < |elems| ==> !Near(Center(elems[i].bbox), Center(elems[j].bbox), minDist)
  }

  /**
   * The handling of one `start` event: a qualifying node is appended iff its
   * centre is far from every element already listed; nothing is ever removed.
   */
  function VisitNode(n: Node, parent: Option<Node>, acc: seq<AndroidElement>,
                     cap: string, addIndex: bool, minDist: nat): (r: Option<seq<AndroidElement>>)
    ensures r.None? <==> Qualifies(n, cap) && ElementOf(n, parent, cap, addIndex).None?
    ensures r.Some? ==> acc <= r.value && |r.value| <= |acc| + 1
  {
    if !Qualifies(n, cap) then Some(acc)
    else
      var e :- ElementOf(n, parent, cap, addIndex);
      if FarFromAll(Center(e.bbox), acc, minDist) then Some(acc + [e]) else Some(acc)
  }

  /**
   * The elements collected from `n` and its subtree, visited in document order
   * (pre-order), starting from `acc`; `None` where Python raises.
   */
  function Walk(n: Node, parent: Option<Node>, acc: seq<AndroidElement>,
                cap: string, addIndex: bool, minDist: nat): (r: Option<seq<AndroidElement>>)
    ensures r.Some? ==> acc <= r.value
    decreases n, 1, 0
  {
    var acc1 :- VisitNode(n, parent, acc, cap, addIndex, minDist);
    WalkChildren(n, 0, acc1, cap, addIndex, minDist)
  }

  /** The walk over the children of `p` from the `i`-th on. */
  function WalkChildren(p: Node, i: nat, acc: seq<AndroidElement>,
                        cap: string, addIndex: bool, minDist: nat): (r: Option<seq<AndroidElement>>)
    requires i <= |p.children|
    ensures r.Some? ==> acc <= r.value
    decreases p, 0, |p.children| - i
  {
    if i == |p.children| then Some(acc)
    else
      var acc1 :- Walk(p.children[i], Some(p), acc, cap, addIndex, minDist);
      WalkChildren(p, i + 1, acc1, cap, addIndex, minDist)
  }

  /** A node met during the walk, with its parent. */
  datatype Visit = Visit(node: Node, parent: Option<Node>)

  /** The nodes of the subtree of `n` in document order, each with its parent. */
  function Visits(n: Node, parent: Option<Node>): seq<Visit>
    decreases n, 1, 0
  {
    [Visit(n, parent)] + VisitsChildren(n, 0)
  }

  function VisitsChildren(p: Node, i: nat): seq<Visit>
    requires i <= |p.children|
    decreases p, 0, |p.children| - i
  {
    if i == |p.children| then [] else Visits(p.children[i], Some(p)) + VisitsChildren(p, i + 1)
  }

  /** No qualifying node in `vs` makes Python raise. */
  predicate AllDefined(vs: seq<Visit>, cap: string, addIndex: bool)
  {
    forall k :: 0 <= k < |vs| && Qualifies(vs[k].node, cap) ==>
      ElementOf(vs[k].node, vs[k].parent, cap, addIndex).Some?
  }

  /** Every qualifying node of `vs` has its centre within `minDist` of a listed element. */
  predicate AllCovered(vs: seq<Visit>, elems: seq<AndroidElement>, cap: string, addIndex: bool, minDist: nat)
  {
    forall k :: 0 <= k < |vs| && Qualifies(vs[k].node, cap) ==>
      ElementOf(vs[k].node, vs[k].parent, cap, addIndex).Some? &&
      Covered(Center(ElementOf(vs[k].node, vs[k].parent, cap, addIndex).value.bbox), elems, minDist)
  }

  /** `e` is the element built for some qualifying node of `vs`. */
  predicate BuiltFrom(e: AndroidElement, vs: seq<Visit>, cap: string, addIndex: bool)
  {
    exists k :: 0 <= k < |vs| && Qualifies(vs[k].node, cap) &&
      ElementOf(vs[k].node, vs[k].parent, cap, addIndex) == Some(e)
  }

  /** Every element added after `acc` was built for a qualifying node of `vs`. */
  predicate AddedFrom(acc: seq<AndroidElement>, r: seq<AndroidElement>, vs: seq<Visit>, cap: string, addIndex: bool)
    requires |acc| <= |r|
  {
    forall j :: |acc| <= j < |r| ==> BuiltFrom(r[j], vs, cap, addIndex)
  }

  lemma CoveredGrows(c: Point, a: seq<AndroidElement>, b: seq<AndroidElement>, minDist: nat)
    requires a <= b && Covered(c, a, minDist)
    ensures Covered(c, b, minDist)
  {
    var k :| 0 <= k < |a| && Near(c, Center(a[k].bbox), minDist);
    assert b[k] == a[k];
  }

  lemma AllCoveredGrows(vs: seq<Visit>, a: seq<AndroidElement>, b: seq<AndroidElement>,
                        cap: string, addIndex: bool, minDist: nat)
    requires a <= b && AllCovered(vs, a, cap, addIndex, minDist)
    ensures AllCovered(vs, b, cap, addIndex, minDist)
  {
    forall k | 0 <= k < |vs| && Qualifies(vs[k].node, cap)
      ensures Covered(Center(ElementOf(vs[k].node, vs[k].parent, cap, addIndex).value.bbox), b, minDist)
    {
      CoveredGrows(Center(ElementOf(vs[k].node, vs[k].parent, cap, addIndex).value.bbox), a, b, minDist);
    }
  }

  lemma BuiltFromWider(e: AndroidElement, vs: seq<Visit>, ws: seq<Visit>, cap: string, addIndex: bool)
    requires BuiltFrom(e, vs, cap, addIndex)
    ensures BuiltFrom(e, vs + ws, cap, addIndex) && BuiltFrom(e, ws + vs, cap, addIndex)
  {
    var k :| 0 <= k < |vs| && Qualifies(vs[k].node, cap) && ElementOf(vs[k].node, vs[k].parent, cap, addIndex) == Some(e);
    assert (vs + ws)[k] == vs[k];
    assert (ws + vs)[|ws| + k] == vs[k];
  }

  /** Appending an element far from every listed one keeps the list separated. */
  lemma SeparatedAppend(acc: seq<AndroidElement>, e: AndroidElement, minDist: nat)
    requires Separated(acc, minDist) && FarFromAll(Center(e.bbox), acc, minDist)
    ensures Separated(acc + [e], minDist)
  {
    var r := acc + [e];
    forall i, j | 0 <= i < j < |r|
      ensures !Near(Center(r[i].bbox), Center(r[j].bbox), minDist)
    {
      if j == |acc| {
        assert r[j] == e && r[i] == acc[i];
        NearSymmetric(Center(r[i].bbox), Center(e.bbox), minDist);
      } else {
        assert r[i] == acc[i] && r[j] == acc[j];
      }
    }
  }

  /** The handling of one node keeps the list separated and covers the node. */
  lemma VisitNodeFacts(n: Node, parent: Option<Node>, acc: seq<AndroidElement>,
                       cap: string, addIndex: bool, minDist: nat)
    requires VisitNode(n, parent, acc, cap, addIndex, minDist).Some?
    ensures var r := VisitNode(n, parent, acc, cap, addIndex, minDist).value;
      (Separated(acc, minDist) ==> Separated(r, minDist)) &&
      AllCovered([Visit(n, parent)], r, cap, addIndex, minDist) &&
      AddedFrom(acc, r, [Visit(n, parent)], cap, addIndex)
  {
    var r := VisitNode(n, parent, acc, cap, addIndex, minDist).value;
    var vs := [Visit(n, parent)];
    assert vs[0].node == n && vs[0].parent == parent;
    if Qualifies(n, cap) {
      var e := ElementOf(n, parent, cap, addIndex).value;
      VisitQualifying(n, parent, acc, e, cap, addIndex, minDist);
      CoveredOne(n, parent, r, e, cap, addIndex, minDist);
    } else {
      assert r == acc;
    }
  }

  lemma CoveredOne(n: Node, parent: Option<Node>, r: seq<AndroidElement>, e: AndroidElement,
                   cap: string, addIndex: bool, minDist: nat)
    requires ElementOf(n, parent, cap, addIndex) == Some(e)
    requires Covered(Center(e.bbox), r, minDist)
    ensures AllCovered([Visit(n, parent)], r, cap, addIndex, minDist)
  {
    var vs := [Visit(n, parent)];
    assert vs[0].node == n && vs[0].parent == parent;
  }

  /** A qualifying node is covered by the new list, and appended only when far from the old one. */
  lemma VisitQualifying(n: Node, parent: Option<Node>, acc: seq<AndroidElement>, e: AndroidElement,
                        cap: string, addIndex: bool, minDist: nat)
    requires Qualifies(n, cap) && ElementOf(n, parent, cap, addIndex) == Some(e)
    ensures var r := VisitNode(n, parent, acc, cap, addIndex, minDist).value;
      (Separated(acc, minDist) ==> Separated(r, minDist)) &&
      Covered(Center(e.bbox), r, minDist) &&
      AddedFrom(acc, r, [Visit(n, parent)], cap, addIndex)
    ensures var r := VisitNode(n, parent, acc, cap, addIndex, minDist).value;
      (r == acc || r == acc + [e]) &&
      (r == acc + [e] <==> FarFromAll(Center(e.bbox), acc, minDist))
  {
    var r := VisitNode(n, parent, acc, cap, addIndex, minDist).value;
    var c := Center(e.bbox);
    var vs := [Visit(n, parent)];
    if FarFromAll(c, acc, minDist) {
      assert r == acc + [e];
      NearSelf(c, minDist);
      assert r[|acc|] == e;
      if Separated(acc, minDist) { SeparatedAppend(acc, e, minDist); }
      assert vs[0] == Visit(n, parent);
      assert BuiltFrom(r[|acc|], vs, cap, addIndex);
    } else {
      assert r == acc;
    }
  }

  /** A subtree stays separated, covers its qualifying nodes and adds only elements built from them. */
  lemma {:induction false} WalkFacts(n: Node, parent: Option<Node>, acc: seq<AndroidElement>,
                                     cap: string, addIndex: bool, minDist: nat)
    requires Walk(n, parent, acc, cap, addIndex, minDist).Some?
    ensures var r := Walk(n, parent, acc, cap, addIndex, minDist).value;
      acc <= r &&
      (Separated(acc, minDist) ==> Separated(r, minDist)) &&
      AllCovered(Visits(n, parent), r, cap, addIndex, minDist) &&
      AddedFrom(acc, r, Visits(n, parent), cap, addIndex)
    decreases n, 1, 0
  {
    var acc1 := VisitNode(n, parent, acc, cap, addIndex, minDist).value;
    VisitNodeFacts(n, parent, acc, cap, addIndex, minDist);
    WalkChildrenFacts(n, 0, acc1, cap, addIndex, minDist);
    var r := Walk(n, parent, acc, cap, addIndex, minDist).value;
    ExtendsJoin(acc, acc1, r, [Visit(n, parent)], VisitsChildren(n, 0), cap, addIndex, minDist);
  }

  lemma {:induction false} WalkChildrenFacts(p: Node, i: nat, acc: seq<AndroidElement>,
                                             cap: string, addIndex: bool, minDist: nat)
    requires i <= |p.children|
    requires WalkChildren(p, i, acc, cap, addIndex, minDist).Some?
    ensures var r := WalkChildren(p, i, acc, cap, addIndex, minDist).value;
      acc <= r &&
      (Separated(acc, minDist) ==> Separated(r, minDist)) &&
      AllCovered(VisitsChildren(p, i), r, cap, addIndex, minDist) &&
      AddedFrom(acc, r, VisitsChildren(p, i), cap, addIndex)
    decreases p, 0, |p.children| - i
  {
    if i < |p.children| {
      var acc1 := Walk(p.children[i], Some(p), acc, cap, addIndex, minDist).value;
      WalkFacts(p.children[i], Some(p), acc, cap, addIndex, minDist);
      WalkChildrenFacts(p, i + 1, acc1, cap, addIndex, minDist);
      var r := WalkChildren(p, i, acc, cap, addIndex, minDist).value;
      ExtendsJoin(acc, acc1, r, Visits(p.children[i], Some(p)), VisitsChildren(p, i + 1), cap, addIndex, minDist);
    }
  }

  /**
   * `r` extends `acc` by walking `vs`: only appends, keeps separation, covers
   * every qualifying visit of `vs` and adds only elements built from them.
   */
  predicate Extends(acc: seq<AndroidElement>, r: seq<AndroidElement>, vs: seq<Visit>,
                    cap: string, addIndex: bool, minDist: nat)
  {
    acc <= r &&
    (Separated(acc, minDist) ==> Separated(r, minDist)) &&
    AllCovered(vs, r, cap, addIndex, minDist) &&
    AddedFrom(acc, r, vs, cap, addIndex)
  }

  /** Walking `head` then `tail` extends by `head + tail`. */
  lemma ExtendsJoin(acc: seq<AndroidElement>, mid: seq<AndroidElement>, r: seq<AndroidElement>,
                    head: seq<Visit>, tail: seq<Visit>, cap: string, addIndex: bool, minDist: nat)
    requires Extends(acc, mid, head, cap, addIndex, minDist)
    requires Extends(mid, r, tail, cap, addIndex, minDist)
    ensures Extends(acc, r, head + tail, cap, addIndex, minDist)
  {
    AllCoveredGrows(head, mid, r, cap, addIndex, minDist);
    AllCoveredJoin(head, tail, r, cap, addIndex, minDist);
    forall j | |acc| <= j < |r| ensures BuiltFrom(r[j], head + tail, cap, addIndex) {
      if j < |mid| { BuiltFromWider(r[j], head, tail, cap, addIndex); }
      else { BuiltFromWider(r[j], tail, head, cap, addIndex); }
    }
  }

  lemma AllCoveredJoin(a: seq<Visit>, b: seq<Visit>, elems: seq<AndroidElement>,
                       cap: string, addIndex: bool, minDist: nat)
    requires AllCovered(a, elems, cap, addIndex, minDist) && AllCovered(b, elems, cap, addIndex, minDist)
    ensures AllCovered(a + b, elems, cap, addIndex, minDist)
  {
    forall k | 0 <= k < |a + b| && Qualifies((a + b)[k].node, cap)
      ensures ElementOf((a + b)[k].node, (a + b)[k].parent, cap, addIndex).Some? &&
        Covered(Center(ElementOf((a + b)[k].node, (a + b)[k].parent, cap, addIndex).value.bbox), elems, minDist)
    {
      if k < |a| { assert (a + b)[k] == a[k]; } else { assert (a + b)[k] == b[k - |a|]; }
    }
  }

  /** The walk raises exactly when some qualifying node of the tree cannot be turned into an element. */
  lemma {:induction false} WalkDefined(n: Node, parent: Option<Node>, acc: seq<AndroidElement>,
                                       cap: string, addIndex: bool, minDist: nat)
    ensures Walk(n, parent, acc, cap, addIndex, minDist).Some? <==> AllDefined(Visits(n, parent), cap, addIndex)
    decreases n, 1, 0
  {
    var head, tail := [Visit(n, parent)], VisitsChildren(n, 0);
    AllDefinedJoin(head, tail, cap, addIndex);
    var v := VisitNode(n, parent, acc, cap, addIndex, minDist);
    if v.Some? {
      WalkChildrenDefined(n, 0, v.value, cap, addIndex, minDist);
    } else {
      assert !AllDefined(head, cap, addIndex) by { assert head[0].node == n; }
    }
  }

  lemma {:induction false} WalkChildrenDefined(p: Node, i: nat, acc: seq<AndroidElement>,
                                               cap: string, addIndex: bool, minDist: nat)
    requires i <= |p.children|
    ensures WalkChildren(p, i, acc, cap, addIndex, minDist).Some? <==> AllDefined(VisitsChildren(p, i), cap, addIndex)
    decreases p, 0, |p.children| - i
  {
    if i < |p.children| {
      var head, tail := Visits(p.children[i], Some(p)), VisitsChildren(p, i + 1);
      AllDefinedJoin(head, tail, cap, addIndex);
      WalkDefined(p.children[i], Some(p), acc, cap, addIndex, minDist);
      var w := Walk(p.children[i], Some(p), acc, cap, addIndex, minDist);
      if w.Some? {
        WalkChildrenDefined(p, i + 1, w.value, cap, addIndex, minDist);
      }
    }
  }

  lemma AllDefinedJoin(a: seq<Visit>, b: seq<Visit>, cap: string, addIndex: bool)
    ensures AllDefined(a + b, cap, addIndex) <==> AllDefined(a, cap, addIndex) && AllDefined(b, cap, addIndex)
  {
    if AllDefined(a, cap, addIndex) && AllDefined(b, cap, addIndex) {
      forall k | 0 <= k < |a + b| && Qualifies((a + b)[k].node, cap)
        ensures ElementOf((a + b)[k].node, (a + b)[k].parent, cap, addIndex).Some?
      {
        if k < |a| { assert (a + b)[k] == a[k]; } else { assert (a + b)[k] == b[k - |a|]; }
      }
    }
    if AllDefined(a + b, cap, addIndex) {
      forall k | 0 <= k < |a| && Qualifies(a[k].node, cap)
        ensures ElementOf(a[k].node, a[k].parent, cap, addIndex).Some?
      {
        assert (a + b)[k] == a[k];
      }
      forall k | 0 <= k < |b| && Qualifies(b[k].node, cap)
        ensures ElementOf(b[k].node, b[k].parent, cap, addIndex).Some?
      {
        assert (a + b)[|a| + k] == b[k];
      }
    }
  }

  /** A parse event of `ET.iterparse(..., ['start', 'end'])`. */
  datatype Event = Start(node: Node) | End(node: Node)

  /** The events of a subtree: `start`, the children's events, `end`. */
  function Events(n: Node): seq<Event>
    decreases n, 1, 0
  {
    [Start(n)] + ChildEvents(n, 0) + [End(n)]
  }

  function ChildEvents(p: Node, i: nat): seq<Event>
    requires i <= |p.children|
    decreases p, 0, |p.children| - i
  {
    if i == |p.children| then [] else Events(p.children[i]) + ChildEvents(p, i + 1)
  }

  /** The innermost open node, the parent of a node that starts now. */
  function Top(path: seq<Node>): Option<Node>
  {
    if path == [] then None else Some(path[|path| - 1])
  }

  /** One event's effect on the path stack and the list; `None` where Python raises. */
  function Step(ev: Event, path: seq<Node>, acc: seq<AndroidElement>,
                cap: string, addIndex: bool, minDist: nat): Option<(seq<Node>, seq<AndroidElement>)>
  {
    match ev
    case Start(n) =>
      var acc1 :- VisitNode(n, Top(path), acc, cap, addIndex, minDist);
      Some((path + [n], acc1))
    case End(_) =>
      if path == [] then None else Some((path[..|path| - 1], acc))
  }

  /** The effect of a whole event stream. */
  function Run(evs: seq<Event>, path: seq<Node>, acc: seq<AndroidElement>,
               cap: string, addIndex: bool, minDist: nat): Option<seq<AndroidElement>>
    decreases |evs|
  {
    if evs == [] then Some(acc)
    else
      match Step(evs[0], path, acc, cap, addIndex, minDist)
      case None => None
      case Some((path1, acc1)) => Run(evs[1..], path1, acc1, cap, addIndex, minDist)
  }

  /** Continue with `rest` from the result of a walk, if it did not raise. */
  function Then(w: Option<seq<AndroidElement>>, rest: seq<Event>, path: seq<Node>,
                cap: string, addIndex: bool, minDist: nat): Option<seq<AndroidElement>>
  {
    match w
    case None => None
    case Some(acc) => Run(rest, path, acc, cap, addIndex, minDist)
  }

  /** Running the events of a subtree is the walk over it, and leaves the path as it found it. */
  lemma {:induction false} RunEvents(n: Node, path: seq<Node>, acc: seq<AndroidElement>, rest: seq<Event>,
                                     cap: string, addIndex: bool, minDist: nat)
    ensures Run(Events(n) + rest, path, acc, cap, addIndex, minDist) ==
      Then(Walk(n, Top(path), acc, cap, addIndex, minDist), rest, path, cap, addIndex, minDist)
    decreases n, 1, 0
  {
    var evs := Events(n) + rest;
    assert evs[0] == Start(n);
    var v := VisitNode(n, Top(path), acc, cap, addIndex, minDist);
    if v.Some? {
      var path1 := path + [n];
      assert evs[1..] == ChildEvents(n, 0) + ([End(n)] + rest);
      RunChildEvents(n, 0, path1, v.value, [End(n)] + rest, cap, addIndex, minDist);
      var w := WalkChildren(n, 0, v.value, cap, addIndex, minDist);
      if w.Some? {
        assert ([End(n)] + rest)[1..] == rest;
        assert path1[..|path1| - 1] == path;
      }
    }
  }

  lemma {:induction false} RunChildEvents(p: Node, i: nat, path: seq<Node>, acc: seq<AndroidElement>, rest: seq<Event>,
                                          cap: string, addIndex: bool, minDist: nat)
    requires i <= |p.children| && Top(path) == Some(p)
    ensures Run(ChildEvents(p, i) + rest, path, acc, cap, addIndex, minDist) ==
      Then(WalkChildren(p, i, acc, cap, addIndex, minDist), rest, path, cap, addIndex, minDist)
    decreases p, 0, |p.children| - i
  {
    if i == |p.children| {
      assert ChildEvents(p, i) + rest == rest;
    } else {
      var c := p.children[i];
      var more := ChildEvents(p, i + 1) + rest;
      assert ChildEvents(p, i) + rest == Events(c) + more;
      RunEvents(c, path, acc, more, cap, addIndex, minDist);
      var w := Walk(c, Some(p), acc, cap, addIndex, minDist);
      if w.Some? {
        RunChildEvents(p, i + 1, path, w.value, rest, cap, addIndex, minDist);
      }
    }
  }

  /** The scan over the listed elements: is any centre within `minDist` of `center`? */
  method AnyClose(center: Point, elems: seq<AndroidElement>, minDist: nat) returns (close: bool)
    ensures close <==> !FarFromAll(center, elems, minDist)
  {
    close := false;
    var k := 0;
    while k < |elems| && !close
      invariant 0 <= k <= |elems|
      invariant close ==> 0 < k && Near(center, Center(elems[k - 1].bbox), minDist)
      invariant !close ==> forall j :: 0 <= j < k ==> !Near(center, Center(elems[j].bbox), minDist)
    {
      close := Near(center, Center(elems[k].bbox), minDist);
      k := k + 1;
    }
  }

  /**
   * The body of `traverse_tree` for the start of node `n`: when `n` qualifies,
   * build its element and append it unless some listed centre is within
   * `minDist` of its centre (the scan stops at the first close one).
   */
  method ConsiderNode(n: Node, parent: Option<Node>, elems: seq<AndroidElement>,
                      cap: string, addIndex: bool, minDist: nat)
    returns (r: Option<seq<AndroidElement>>)
    ensures r == VisitNode(n, parent, elems, cap, addIndex, minDist)
  {
    if !(cap in n.attrs && n.attrs[cap] == "true") {
      return Some(elems);
    }
    var e := ElementOf(n, parent, cap, addIndex);
    if e.None? {
      return None;
    }
    var close := AnyClose(Center(e.value.bbox), elems, minDist);
    if close {
      r := Some(elems);
    } else {
      r := Some(elems + [e.value]);
    }
  }

  /**
   * `traverse_tree`: iterate over the tree's start/end events, keeping the
   * stack of open nodes; on the start of a node, handle it with its parent
   * (the node below it on the stack) as `ConsiderNode` does; on the end, pop.
   * The result is the walk over the tree from `elemList`; `None` where Python raises.
   */
  method TraverseTree(tree: Node, elemList: seq<AndroidElement>, cap: string, addIndex: bool, minDist: nat)
    returns (r: Option<seq<AndroidElement>>)
    ensures r == Walk(tree, None, elemList, cap, addIndex, minDist)
  {
    var events := Events(tree);
    RunEvents(tree, [], elemList, [], cap, addIndex, minDist);
    assert events + [] == events;
    var path: seq<Node> := [];
    var elems := elemList;
    var i := 0;
    while i < |events|
      invariant 0 <= i <= |events|
      invariant Run(events[i..], path, elems, cap, addIndex, minDist) == Walk(tree, None, elemList, cap, addIndex, minDist)
    {
      var ev := events[i];
      ghost var before, pathBefore := elems, path;
      assert events[i..][0] == ev && events[i..][1..] == events[i + 1..];
      if ev.Start? {
        var n := ev.node;
        path := path + [n];
        var parent := if |path| > 1 then Some(path[|path| - 2]) else None;
        assert parent == Top(pathBefore);
        var next := ConsiderNode(n, parent, elems, cap, addIndex, minDist);
        if next.None? {
          return None;
        }
        elems := next.value;
      }
      if ev.End? {
        if path == [] {
          return None;
        }
        path := path[..|path| - 1];
      }
      assert Step(ev, pathBefore, before, cap, addIndex, minDist) == Some((path, elems));
      i := i + 1;
    }
    r := Some(elems);
  }

  /**
   * Properties of a successful walk from `acc`: the list only grows, a list
   * that was separated stays separated, every qualifying node of the tree has
   * its centre within `minDist` of a listed centre, and every added element is
   * the element of some qualifying node.
   */
  lemma TraverseFacts(tree: Node, acc: seq<AndroidElement>, cap: string, addIndex: bool, minDist: nat)
    requires Walk(tree, None, acc, cap, addIndex, minDist).Some?
    ensures var r := Walk(tree, None, acc, cap, addIndex, minDist).value;
      acc <= r &&
      (Separated(acc, minDist) ==> Separated(r, minDist)) &&
      AllCovered(Visits(tree, None), r, cap, addIndex, minDist) &&
      AddedFrom(acc, r, Visits(tree, None), cap, addIndex)
  {
    WalkFacts(tree, None, acc, cap, addIndex, minDist);
  }

  /** From an empty list, the accepted centres are pairwise more than `minDist` apart. */
  lemma TraverseFromEmptySeparated(tree: Node, cap: string, addIndex: bool, minDist: nat)
    requires Walk(tree, None, [], cap, addIndex, minDist).Some?
    ensures Separated(Walk(tree, None, [], cap, addIndex, minDist).value, minDist)
  {
    WalkFacts(tree, None, [], cap, addIndex, minDist);
  }
}
