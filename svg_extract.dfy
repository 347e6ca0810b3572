/**
 * Classification of the identified elements of a floor-plan SVG into rooms,
 * doors, exits, corridor nodes and other landmarks, with the bounding box
 * and centre of each. The XML parsing and the `[\d.]+` tokenizer are not
 * modelled: an element arrives with its local tag name and with its numeric
 * attributes already converted (see `Attributes`).
 */
module SvgExtract {
  import opened Wrappers
  import opened Text

  /** A bounding box `{x, y, width, height}` in floor-plan pixels. */
  datatype BBox = BBox(x: real, y: real, width: real, height: real)

  /** A point `{x, y}` in floor-plan pixels. */
  datatype Point = Point(x: real, y: real)

  /**
   * The attributes the extraction reads. `None` stands for an attribute that
   * is absent or empty (both are falsy in the source); `d` and `points` hold
   * the numbers the tokenizer found in the attribute text.
   */
  datatype Attributes = Attributes(
    d: Option<seq<real>>,
    points: Option<seq<real>>,
    x: Option<real>, y: Option<real>, width: Option<real>, height: Option<real>,
    cx: Option<real>, cy: Option<real>, r: Option<real>)

  /** An SVG element: its `id` (`""` when it has none), local tag name and attributes. */
  datatype Element = Element(id: string, tag: string, attrs: Attributes)

  // ---------------------------------------------------------------------------
  // Bounding boxes and centres

  /** `nums[0::2]`, the numbers at even positions. */
  function EveryOther(nums: seq<real>): (r: seq<real>)
    ensures |r| == (|nums| + 1) / 2
    ensures forall k :: 0 <= k < |r| ==> r[k] == nums[2 * k]
  {
    if |nums| <= 1 then nums else [nums[0]] + EveryOther(nums[2..])
  }

  /** Python's `min` on a non-empty list: an element no other element undercuts. */
  function Min(s: seq<real>): (m: real)
    requires |s| > 0
    ensures m in s
    ensures forall k :: 0 <= k < |s| ==> m <= s[k]
  {
    if |s| == 1 then s[0]
    else
      var rest := Min(s[1..]);
      if s[0] <= rest then s[0] else rest
  }

  /** Python's `max` on a non-empty list: an element no other element exceeds. */
  function Max(s: seq<real>): (m: real)
    requires |s| > 0
    ensures m in s
    ensures forall k :: 0 <= k < |s| ==> s[k] <= m
  {
    if |s| == 1 then s[0]
    else
      var rest := Max(s[1..]);
      if s[0] >= rest then s[0] else rest
  }

  /**
   * `lo` and `hi` are the least and the greatest of the numbers at the
   * positions of the given parity (0: x coordinates, 1: y coordinates).
   */
  ghost predicate Spans(nums: seq<real>, parity: nat, lo: real, hi: real) {
    && (exists i :: 0 <= i < |nums| && i % 2 == parity && nums[i] == lo)
    && (exists i :: 0 <= i < |nums| && i % 2 == parity && nums[i] == hi)
    && (forall i :: 0 <= i < |nums| && i % 2 == parity ==> lo <= nums[i] <= hi)
  }

  lemma EveryOtherSpans(nums: seq<real>, parity: nat)
    requires parity <= 1 && |nums| > parity
    ensures var xs := EveryOther(nums[parity..]);
            |xs| > 0 && Spans(nums, parity, Min(xs), Max(xs))
  {
    var xs := EveryOther(nums[parity..]);
    assert xs[0] == nums[parity];
    var lo, hi := Min(xs), Max(xs);
    AtEvenOffset(nums, parity, xs, lo);
    AtEvenOffset(nums, parity, xs, hi);
    forall i | 0 <= i < |nums| && i % 2 == parity
      ensures lo <= nums[i] <= hi
    {
      var k := PickedAt(nums, parity, xs, i);
    }
  }

  /** The number at position `i` of the given parity is picked, at index `k`. */
  lemma PickedAt(nums: seq<real>, parity: nat, xs: seq<real>, i: nat) returns (k: nat)
    requires parity <= 1 && i < |nums| && i % 2 == parity
    requires xs == EveryOther(nums[parity..])
    ensures k < |xs| && xs[k] == nums[i]
  {
    k := HalfIndex(i, parity);
    assert xs[k] == nums[parity..][2 * k];
  }

  /** The position `i` of the given parity is `2 * k + parity`. */
  lemma HalfIndex(i: nat, parity: nat) returns (k: nat)
    requires parity <= 1 && i % 2 == parity
    ensures i == 2 * k + parity
  {
    k := i / 2;
  }

  lemma AtEvenOffset(nums: seq<real>, parity: nat, xs: seq<real>, v: real)
    requires parity <= 1 && |nums| > parity
    requires xs == EveryOther(nums[parity..]) && v in xs
    ensures exists i :: 0 <= i < |nums| && i % 2 == parity && nums[i] == v
  {
    var k :| 0 <= k < |xs| && xs[k] == v;
    assert xs[k] == nums[parity..][2 * k];
    var i := 2 * k + parity;
    assert i % 2 == parity;
    assert nums[i] == v;
  }

  /**
   * `extrair_bbox_de_path` (and the polygon branch): no box below four
   * numbers; otherwise the box spans the even-position numbers horizontally
   * and the odd-position numbers vertically, so its sides are never negative.
   */
  function PathBBox(nums: seq<real>): (b: Option<BBox>)
    ensures b.None? <==> |nums| < 4
    ensures b.Some? ==> b.value.width >= 0.0 && b.value.height >= 0.0
    ensures b.Some? ==> Spans(nums, 0, b.value.x, b.value.x + b.value.width)
    ensures b.Some? ==> Spans(nums, 1, b.value.y, b.value.y + b.value.height)
  {
    if |nums| < 4 then None
    else
      var xs, ys := EveryOther(nums), EveryOther(nums[1..]);
      EveryOtherSpans(nums, 0);
      EveryOtherSpans(nums, 1);
      assert nums[0..] == nums;
      Some(BBox(Min(xs), Min(ys), Max(xs) - Min(xs), Max(ys) - Min(ys)))
  }

  /**
   * `extrair_bbox_de_elemento`: a path or polygon is boxed from its numbers,
   * a rect only when all four of x, y, width and height are present, a
   * circle as the square around it; every other tag has no box.
   */
  function ElementBBox(e: Element): (b: Option<BBox>)
    ensures e.tag !in {"path", "rect", "circle", "polygon"} ==> b.None?
    ensures e.tag == "rect" ==>
              (b.Some? <==> e.attrs.x.Some? && e.attrs.y.Some? && e.attrs.width.Some? && e.attrs.height.Some?)
    ensures e.tag == "rect" && b.Some? ==>
              b.value == BBox(e.attrs.x.value, e.attrs.y.value, e.attrs.width.value, e.attrs.height.value)
    ensures e.tag == "circle" ==> (b.Some? <==> e.attrs.cx.Some? && e.attrs.cy.Some? && e.attrs.r.Some?)
    ensures e.tag == "circle" && b.Some? ==>
              && b.value.width == b.value.height == 2.0 * e.attrs.r.value
              && b.value.x + b.value.width / 2.0 == e.attrs.cx.value
              && b.value.y + b.value.height / 2.0 == e.attrs.cy.value
    ensures e.tag == "path" ==> (b.Some? <==> e.attrs.d.Some? && |e.attrs.d.value| >= 4)
    ensures e.tag == "path" && b.Some? ==> b == PathBBox(e.attrs.d.value)
    ensures e.tag == "polygon" ==> (b.Some? <==> e.attrs.points.Some? && |e.attrs.points.value| >= 4)
    ensures e.tag == "polygon" && b.Some? ==> b == PathBBox(e.attrs.points.value)
    ensures e.tag in {"path", "polygon"} && b.Some? ==> b.value.width >= 0.0 && b.value.height >= 0.0
  {
    var a := e.attrs;
    if e.tag == "path" then
      if a.d.Some? then PathBBox(a.d.value) else None
    else if e.tag == "rect" then
      if a.x.Some? && a.y.Some? && a.width.Some? && a.height.Some? then
        Some(BBox(a.x.value, a.y.value, a.width.value, a.height.value))
      else None
    else if e.tag == "circle" then
      if a.cx.Some? && a.cy.Some? && a.r.Some? then
        Some(BBox(a.cx.value - a.r.value, a.cy.value - a.r.value, a.r.value * 2.0, a.r.value * 2.0))
      else None
    else if e.tag == "polygon" then
      if a.points.Some? && |a.points.value| >= 4 then PathBBox(a.points.value) else None
    else None
  }

  /** `calcular_centro`: no centre without a box; otherwise the box's midpoint. */
  function Centre(b: Option<BBox>): (c: Option<Point>)
    ensures c.None? <==> b.None?
    ensures c.Some? ==> c.value.x - b.value.x == b.value.x + b.value.width - c.value.x
    ensures c.Some? ==> c.value.y - b.value.y == b.value.y + b.value.height - c.value.y
  {
    match b
    case None => None
    case Some(box) => Some(Point(box.x + box.width / 2.0, box.y + box.height / 2.0))
  }

  // ---------------------------------------------------------------------------
  // Identifier parsing

  /** The room number of a `Room_` id: the id with every `Room_` removed. */
  function RoomNumber(id: string): (n: string)
    ensures |n| <= |id|
    ensures !Contains(id, "Room_") ==> n == id
  {
    ReplaceAll(id, "Room_", "")
  }

  /** The number written after `Room_` is what `RoomNumber` recovers. */
  lemma RoomNumberOfRoomId(n: string)
    requires !Contains(n, "Room_")
    ensures RoomNumber("Room_" + n) == n
  {
    var s := "Room_" + n;
    assert s[..5] == "Room_";
    assert s[5..] == n;
  }

  /** A door's room: the second `_`-separated field of its id, if any. */
  function DoorRoom(id: string): (room: Option<string>)
    ensures room.Some? ==> '_' !in room.value
  {
    var parts := Split(id, '_');
    if |parts| >= 2 then Some(parts[1]) else None
  }

  /**
   * For `Door_<rest>` the room is the part of `<rest>` before its first `_`
   * (all of it when there is none): it is never missing.
   */
  lemma {:induction false} DoorRoomOfDoorId(rest: string)
    ensures var room := DoorRoom("Door_" + rest);
            && room.Some?
            && StartsWith(rest, room.value)
            && (|room.value| == |rest| || rest[|room.value|] == '_')
  {
    assert "Door_" + rest == "Door" + ['_'] + rest;
    SplitAtSeparator("Door", '_', rest);
    FirstField(rest, '_');
  }

  /** The first piece of a split is the text before the first separator. */
  lemma {:induction false} FirstField(s: string, sep: char)
    ensures var p := Split(s, sep)[0];
            StartsWith(s, p) && (|p| == |s| || s[|p|] == sep)
  {
    if s != [] && s[0] != sep {
      FirstField(s[1..], sep);
    }
  }

  // ---------------------------------------------------------------------------
  // Records produced by the extraction

  datatype Room = Room(id: string, number: string, bbox: Option<BBox>, centre: Option<Point>, element: string)
  datatype Door = Door(id: string, room: Option<string>, bbox: Option<BBox>, centre: Option<Point>, element: string)
  /** `tipo` of an exit record: `'saida'` (Exit) or `'entrada'` (Entrance). */
  datatype ExitKind = Exit | Entrance
  datatype ExitPoint = ExitPoint(id: string, kind: ExitKind, bbox: Option<BBox>, centre: Option<Point>, element: string)
  datatype CorridorNode = CorridorNode(id: string, x: real, y: real, element: string)
  /** A hallway, corridor, stair or elevator element (the `outros` list). */
  datatype Landmark = Landmark(id: string, bbox: Option<BBox>, centre: Option<Point>, element: string)

  /** The five lists of `extrair_elementos_svg`. */
  datatype Elements = Elements(
    rooms: seq<Room>, doors: seq<Door>, exits: seq<ExitPoint>,
    corridorNodes: seq<CorridorNode>, others: seq<Landmark>)

  /** The rule that claims an id, tried in the source's order. */
  datatype Rule = RoomRule | DoorRule | ExitRule | NodeRule | KeywordRule | NoRule

  const Keywords: seq<string> := ["hallway", "corridor", "stair", "elevator"]

  predicate HasKeyword(id: string) {
    exists k | 0 <= k < |Keywords| :: Contains(Lower(id), Keywords[k])
  }

  /**
   * The first rule that matches `id`. The four prefixes exclude each other,
   * so each prefix rule applies exactly when its prefix is present; the
   * order matters only for the keyword rule, which yields to all four.
   */
  function RuleOf(id: string): (r: Rule)
    ensures r == RoomRule <==> StartsWith(id, "Room_")
    ensures r == DoorRule <==> StartsWith(id, "Door_")
    ensures r == ExitRule <==> StartsWith(id, "Exit_") || StartsWith(id, "Entrance_")
    ensures r == NodeRule <==> StartsWith(id, "Node_")
    ensures r == KeywordRule <==>
              && !StartsWith(id, "Room_") && !StartsWith(id, "Door_") && !StartsWith(id, "Exit_")
              && !StartsWith(id, "Entrance_") && !StartsWith(id, "Node_") && HasKeyword(id)
  {
    if StartsWith(id, "Room_") then RoomRule
    else if StartsWith(id, "Door_") then DoorRule
    else if StartsWith(id, "Exit_") || StartsWith(id, "Entrance_") then ExitRule
    else if StartsWith(id, "Node_") then NodeRule
    else if HasKeyword(id) then KeywordRule
    else NoRule
  }

  /** What one element with an id contributes to the lists, if anything. */
  datatype Item =
    | RoomItem(room: Room)
    | DoorItem(door: Door)
    | ExitItem(exit: ExitPoint)
    | NodeItem(node: CorridorNode)
    | OtherItem(other: Landmark)
    | Skipped

  /**
   * One iteration of the loop in `extrair_elementos_svg`. A `Node_` circle
   * takes `cx`/`cy` as they are and is dropped without both; any other
   * `Node_` element is kept only when its box gives a centre.
   */
  function Classify(e: Element): (item: Item)
    ensures item.RoomItem? <==> RuleOf(e.id) == RoomRule
    ensures item.DoorItem? <==> RuleOf(e.id) == DoorRule
    ensures item.ExitItem? <==> RuleOf(e.id) == ExitRule
    ensures item.OtherItem? <==> RuleOf(e.id) == KeywordRule
    ensures item.NodeItem? <==>
              && RuleOf(e.id) == NodeRule
              && if e.tag == "circle" then e.attrs.cx.Some? && e.attrs.cy.Some? else Centre(ElementBBox(e)).Some?
    ensures item.RoomItem? ==> item.room.id == e.id && item.room.number == RoomNumber(e.id)
    ensures item.DoorItem? ==> item.door.id == e.id && item.door.room == DoorRoom(e.id)
    ensures item.ExitItem? ==> item.exit.id == e.id && (item.exit.kind == Exit <==> StartsWith(e.id, "Exit_"))
    ensures item.NodeItem? ==> item.node.id == e.id
    ensures item.OtherItem? ==> item.other.id == e.id
    ensures item.NodeItem? && e.tag == "circle" ==> e.attrs.cx == Some(item.node.x) && e.attrs.cy == Some(item.node.y)
    ensures item.NodeItem? && e.tag != "circle" ==> Centre(ElementBBox(e)) == Some(Point(item.node.x, item.node.y))
    ensures item.NodeItem? ==> item.node.element == e.tag
    ensures item.RoomItem? ==>
              item.room.bbox == ElementBBox(e) && item.room.centre == Centre(ElementBBox(e)) && item.room.element == e.tag
    ensures item.DoorItem? ==>
              item.door.bbox == ElementBBox(e) && item.door.centre == Centre(ElementBBox(e)) && item.door.element == e.tag
    ensures item.ExitItem? ==>
              item.exit.bbox == ElementBBox(e) && item.exit.centre == Centre(ElementBBox(e)) && item.exit.element == e.tag
    ensures item.OtherItem? ==>
              item.other.bbox == ElementBBox(e) && item.other.centre == Centre(ElementBBox(e)) && item.other.element == e.tag
  {
    var tag := e.tag;
    match RuleOf(e.id)
    case RoomRule =>
      var box := ElementBBox(e);
      RoomItem(Room(e.id, RoomNumber(e.id), box, Centre(box), tag))
    case DoorRule =>
      var box := ElementBBox(e);
      DoorItem(Door(e.id, DoorRoom(e.id), box, Centre(box), tag))
    case ExitRule =>
      var box := ElementBBox(e);
      var kind := if StartsWith(e.id, "Exit_") then Exit else Entrance;
      ExitItem(ExitPoint(e.id, kind, box, Centre(box), tag))
    case NodeRule =>
      if tag == "circle" then
        if e.attrs.cx.Some? && e.attrs.cy.Some? then
          NodeItem(CorridorNode(e.id, e.attrs.cx.value, e.attrs.cy.value, "circle"))
        else Skipped
      else
        var centre := Centre(ElementBBox(e));
        if centre.Some? then NodeItem(CorridorNode(e.id, centre.value.x, centre.value.y, tag))
        else Skipped
    case KeywordRule =>
      var box := ElementBBox(e);
      OtherItem(Landmark(e.id, box, Centre(box), tag))
    case NoRule => Skipped
  }

  /** Appends an item to the list it belongs to. */
  function Add(acc: Elements, item: Item): Elements {
    match item
    case RoomItem(r) => acc.(rooms := acc.rooms + [r])
    case DoorItem(d) => acc.(doors := acc.doors + [d])
    case ExitItem(x) => acc.(exits := acc.exits + [x])
    case NodeItem(n) => acc.(corridorNodes := acc.corridorNodes + [n])
    case OtherItem(o) => acc.(others := acc.others + [o])
    case Skipped => acc
  }

  const NoElements := Elements([], [], [], [], [])

  /** The lists after visiting `elems` in document order; id-less elements are skipped. */
  function Collect(elems: seq<Element>): Elements {
    if elems == [] then NoElements
    else
      var acc := Collect(elems[..|elems| - 1]);
      var e := elems[|elems| - 1];
      if e.id == "" then acc else Add(acc, Classify(e))
  }

  /** How many of `elems` have an id (`elementos_processados`). */
  function CountWithId(elems: seq<Element>): nat {
    if elems == [] then 0
    else CountWithId(elems[..|elems| - 1]) + (if elems[|elems| - 1].id != "" then 1 else 0)
  }

  /** How many of `elems` have an id that `rule` claims. */
  function CountRule(elems: seq<Element>, rule: Rule): nat {
    if elems == [] then 0
    else
      var e := elems[|elems| - 1];
      CountRule(elems[..|elems| - 1], rule) + (if e.id != "" && RuleOf(e.id) == rule then 1 else 0)
  }

  function Size(acc: Elements): nat {
    |acc.rooms| + |acc.doors| + |acc.exits| + |acc.corridorNodes| + |acc.others|
  }

  /**
   * `extrair_elementos_svg` over the elements in document order: appends
   * each classified element to its list and counts the elements with an id.
   */
  method ExtractElements(elems: seq<Element>) returns (out: Elements, processed: nat)
    ensures out == Collect(elems)
    ensures processed == CountWithId(elems)
  {
    out := NoElements;
    processed := 0;
    var i := 0;
    while i < |elems|
      invariant 0 <= i <= |elems|
      invariant out == Collect(elems[..i])
      invariant processed == CountWithId(elems[..i])
    {
      var e := elems[i];
      assert elems[..i + 1][..i] == elems[..i];
      if e.id != "" {
        processed := processed + 1;
        match Classify(e)
        case RoomItem(r) => out := out.(rooms := out.rooms + [r]);
        case DoorItem(d) => out := out.(doors := out.doors + [d]);
        case ExitItem(x) => out := out.(exits := out.exits + [x]);
        case NodeItem(n) => out := out.(corridorNodes := out.corridorNodes + [n]);
        case OtherItem(o) => out := out.(others := out.others + [o]);
        case Skipped =>
      }
      i := i + 1;
    }
    assert elems[..i] == elems;
  }

  /**
   * Each element with an id lands in at most one list, and rooms, doors,
   * exits and landmarks are never dropped: each list holds exactly the
   * elements its rule claims (corridor nodes may be dropped for want of a
   * position).
   */
  lemma {:induction false} CollectCounts(elems: seq<Element>)
    ensures var out := Collect(elems);
            && Size(out) <= CountWithId(elems)
            && |out.rooms| == CountRule(elems, RoomRule)
            && |out.doors| == CountRule(elems, DoorRule)
            && |out.exits| == CountRule(elems, ExitRule)
            && |out.others| == CountRule(elems, KeywordRule)
            && |out.corridorNodes| <= CountRule(elems, NodeRule)
  {
    if elems != [] {
      CollectCounts(elems[..|elems| - 1]);
    }
  }

  /** Every record sits in the list of the rule that claims its id. */
  lemma {:induction false} CollectSorted(elems: seq<Element>)
    ensures var out := Collect(elems);
            && (forall r :: r in out.rooms ==> RuleOf(r.id) == RoomRule && r.number == RoomNumber(r.id))
            && (forall d :: d in out.doors ==> RuleOf(d.id) == DoorRule && d.room == DoorRoom(d.id))
            && (forall x :: x in out.exits ==> RuleOf(x.id) == ExitRule && (x.kind == Exit <==> StartsWith(x.id, "Exit_")))
            && (forall n :: n in out.corridorNodes ==> RuleOf(n.id) == NodeRule)
            && (forall o :: o in out.others ==> RuleOf(o.id) == KeywordRule)
  {
    if elems != [] {
      CollectSorted(elems[..|elems| - 1]);
    }
  }
}
