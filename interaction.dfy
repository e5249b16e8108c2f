/**
 * The canvas interaction handlers: per frame, arrow selection, node
 * selection and drag, arrow creation, rename and deletion run in this fixed
 * order over the diagram and the UI state, followed by the context menu.
 * Pointer positions and deltas are used exactly as the pointer reports them:
 * the handlers apply no pan/zoom transform.
 */
module Interaction {
  import opened Options
  import opened Geometry
  import opened SadtElements
  import opened SadtModel
  import opened Drawing

  /** Tolerance for selecting an arrow. */
  const ArrowSelectDistance: real := 5.0

  /** Radius of the connection-point probe on press. */
  const PressProbeRadius: real := ConnectionPointRadius * 3.0

  /** Radius of the connection-point probe on release: landing is easier than starting. */
  const ReleaseProbeRadius: real := ConnectionPointRadius * 4.0

  // ---------------------------------------------------------------------------
  // Point-to-segment distance
  // ---------------------------------------------------------------------------

  /** `f32::clamp`. */
  function Clamp(t: real, lo: real, hi: real): real
    requires lo <= hi
  {
    if t < lo then lo else if t > hi then hi else t
  }

  /** `(p - a) · (b - a)`, written out as `distance_sq_to_segment` writes it. */
  function SegmentDot(p: Pos2, a: Pos2, b: Pos2): real {
    (p.x - a.x) * (b.x - a.x) + (p.y - a.y) * (b.y - a.y)
  }

  lemma QuotientBounds(d: real, l: real)
    requires l > 0.0
    ensures d / l < 0.0 ==> d < 0.0
    ensures d / l > 1.0 ==> d > l
    ensures (d / l) * l == d
  {
    var q := d / l;
    if q < 0.0 {
      assert q * l < 0.0 * l;
    } else if q > 1.0 {
      assert q * l > 1.0 * l;
    }
  }

  /** The projection parameter `(d / l).clamp(0, 1)`. */
  function ProjectionParam(d: real, l: real): real
    requires l > 0.0
  {
    Clamp(d / l, 0.0, 1.0)
  }

  /** The projection parameter lies in [0, 1] and is the vertex `d / l` or the end it was clamped to. */
  lemma ProjectionParamPlacement(d: real, l: real)
    requires l > 0.0
    ensures var t := ProjectionParam(d, l);
      && 0.0 <= t <= 1.0
      && ((t == 0.0 && d <= 0.0) || (t == 1.0 && d >= l) || t * l == d)
  {
    QuotientBounds(d, l);
  }

  lemma SquareNonNegative(u: real)
    ensures u * u >= 0.0
  {
    if u < 0.0 {
      assert u * u == (-u) * (-u);
    }
  }

  lemma DistanceSqNonNegative(p: Pos2, q: Pos2)
    ensures p.DistanceSq(q) >= 0.0
  {
    SquareNonNegative(p.x - q.x);
    SquareNonNegative(p.y - q.y);
  }

  lemma PlaneQuadratic(ux: real, uy: real, wx: real, wy: real, s: real)
    ensures (ux - wx * s) * (ux - wx * s) + (uy - wy * s) * (uy - wy * s)
         == (ux * ux + uy * uy) - 2.0 * s * (ux * wx + uy * wy) + s * s * (wx * wx + wy * wy)
  {
  }

  lemma NegSquare(w: real)
    ensures (-w) * (-w) == w * w
  {
  }

  /** The squared distance to the point at parameter `s`, on coordinates. */
  lemma LineQuadratic(px: real, py: real, ax: real, ay: real, bx: real, qy: real, mx: real, my: real, s: real)
    requires mx == ax + (bx - ax) * s && my == ay + (qy - ay) * s
    ensures (px - mx) * (px - mx) + (py - my) * (py - my)
         == ((px - ax) * (px - ax) + (py - ay) * (py - ay))
          - 2.0 * s * ((px - ax) * (bx - ax) + (py - ay) * (qy - ay))
          + s * s * ((ax - bx) * (ax - bx) + (ay - qy) * (ay - qy))
  {
    var ux, uy, wx, wy := px - ax, py - ay, bx - ax, qy - ay;
    assert px - mx == ux - wx * s;
    assert py - my == uy - wy * s;
    PlaneQuadratic(ux, uy, wx, wy, s);
    assert ax - bx == -wx && ay - qy == -wy;
    NegSquare(wx);
    NegSquare(wy);
  }

  /** `LineQuadratic` with the distances and the dot product as values. */
  lemma LineQuadraticValues(px: real, py: real, ax: real, ay: real, bx: real, qy: real, mx: real, my: real, s: real,
                            fm: real, fa: real, dot: real, l: real)
    requires mx == ax + (bx - ax) * s && my == ay + (qy - ay) * s
    requires fm == (px - mx) * (px - mx) + (py - my) * (py - my)
    requires fa == (px - ax) * (px - ax) + (py - ay) * (py - ay)
    requires dot == (px - ax) * (bx - ax) + (py - ay) * (qy - ay)
    requires l == (ax - bx) * (ax - bx) + (ay - qy) * (ay - qy)
    ensures fm == fa - 2.0 * s * dot + s * s * l
  {
    LineQuadratic(px, py, ax, ay, bx, qy, mx, my, s);
  }

  lemma LerpCoordinates(a: Pos2, b: Pos2, s: real)
    ensures Lerp(a, b, s).x == a.x + (b.x - a.x) * s
    ensures Lerp(a, b, s).y == a.y + (b.y - a.y) * s
  {
  }

  lemma DistanceSqCoordinates(p: Pos2, q: Pos2)
    ensures p.DistanceSq(q) == (p.x - q.x) * (p.x - q.x) + (p.y - q.y) * (p.y - q.y)
  {
  }

  /** The squared distance from `p` to the point at parameter `s` is a quadratic in `s`. */
  lemma DistanceAlongLine(p: Pos2, a: Pos2, b: Pos2, s: real)
    ensures p.DistanceSq(Lerp(a, b, s)) == p.DistanceSq(a) - 2.0 * s * SegmentDot(p, a, b) + s * s * a.DistanceSq(b)
  {
    var m := Lerp(a, b, s);
    LerpCoordinates(a, b, s);
    DistanceSqCoordinates(p, m);
    DistanceSqCoordinates(p, a);
    DistanceSqCoordinates(a, b);
    LineQuadraticValues(p.x, p.y, a.x, a.y, b.x, b.y, m.x, m.y, s,
                        p.DistanceSq(m), p.DistanceSq(a), SegmentDot(p, a, b), a.DistanceSq(b));
  }

  lemma QuadraticDifference(f0: real, d: real, l: real, s: real, t: real)
    ensures (f0 - 2.0 * s * d + s * s * l) - (f0 - 2.0 * t * d + t * t * l) == (s - t) * (l * (s + t) - 2.0 * d)
  {
  }

  lemma ProductNonNegative(x: real, y: real)
    requires (x >= 0.0 && y >= 0.0) || (x <= 0.0 && y <= 0.0)
    ensures x * y >= 0.0
  {
    if x <= 0.0 && y <= 0.0 {
      assert x * y == (-x) * (-y);
    }
  }

  /**
   * With `l > 0`, the quadratic `f(s) = f0 - 2sd + s^2 l` takes on [0, 1] no
   * value below its value at the clamped vertex `t` (the vertex `d / l`, or
   * the end of [0, 1] nearest to it):
   * `f(s) - f(t) == (s - t)(l(s + t) - 2d) >= 0`.
   */
  lemma QuadraticMinimum(f0: real, d: real, l: real, s: real, t: real, fs: real, ft: real)
    requires l > 0.0 && 0.0 <= s <= 1.0
    requires (t == 0.0 && d <= 0.0) || (t == 1.0 && d >= l) || t * l == d
    requires fs == f0 - 2.0 * s * d + s * s * l
    requires ft == f0 - 2.0 * t * d + t * t * l
    ensures ft <= fs
  {
    QuadraticDifference(f0, d, l, s, t);
    if t == 0.0 && d <= 0.0 {
      ProductNonNegative(s - t, l * (s + t) - 2.0 * d);
    } else if t == 1.0 && d >= l {
      assert l * (s + 1.0) <= 2.0 * l;
      ProductNonNegative(s - t, l * (s + t) - 2.0 * d);
    } else {
      assert l * (s + t) - 2.0 * d == l * (s - t);
      assert (s - t) * (l * (s - t)) == l * ((s - t) * (s - t));
      SquareNonNegative(s - t);
      ProductNonNegative(l, (s - t) * (s - t));
    }
  }

  /**
   * A parameter `t` placed like the clamped projection (the vertex, or the
   * end of [0, 1] nearest to it) gives a point of the segment no farther from
   * `p` than the point at any parameter `s` in [0, 1].
   */
  lemma ClampedVertexNoFarther(p: Pos2, a: Pos2, b: Pos2, s: real, t: real)
    requires a.DistanceSq(b) > 0.0
    requires 0.0 <= s <= 1.0
    requires var d, l := SegmentDot(p, a, b), a.DistanceSq(b);
      (t == 0.0 && d <= 0.0) || (t == 1.0 && d >= l) || t * l == d
    ensures p.DistanceSq(Lerp(a, b, t)) <= p.DistanceSq(Lerp(a, b, s))
  {
    DistanceAlongLine(p, a, b, t);
    DistanceAlongLine(p, a, b, s);
    QuadraticMinimum(p.DistanceSq(a), SegmentDot(p, a, b), a.DistanceSq(b), s, t,
                     p.DistanceSq(Lerp(a, b, s)), p.DistanceSq(Lerp(a, b, t)));
  }

  /**
   * `distance_sq_to_segment`: the squared distance from `p` to the point of
   * the segment from `a` to `b` at the clamped projection parameter; a
   * segment of squared length zero is measured to `a`.
   */
  function DistanceSqToSegment(p: Pos2, a: Pos2, b: Pos2): (r: real)
    ensures 0.0 <= r <= p.DistanceSq(a)
    ensures a.DistanceSq(b) != 0.0 ==> r <= p.DistanceSq(b)
  {
    var l2 := a.DistanceSq(b);
    if l2 == 0.0 then
      DistanceSqNonNegative(p, a);
      p.DistanceSq(a)
    else
      DistanceSqNonNegative(a, b);
      var t := ProjectionParam(SegmentDot(p, a, b), l2);
      ProjectionParamPlacement(SegmentDot(p, a, b), l2);
      var projection := Lerp(a, b, t);
      DistanceSqNonNegative(p, projection);
      ClampedVertexNoFarther(p, a, b, 0.0, t);
      ClampedVertexNoFarther(p, a, b, 1.0, t);
      assert Lerp(a, b, 0.0) == a && Lerp(a, b, 1.0) == b;
      p.DistanceSq(projection)
  }

  /**
   * `DistanceSqToSegment` is the distance to a point of the segment and, for
   * a segment of non-zero squared length, no point of the segment is closer.
   */
  lemma DistanceSqToSegmentIsMinimum(p: Pos2, a: Pos2, b: Pos2)
    ensures DistanceSqToSegment(p, a, b) >= 0.0
    ensures a.DistanceSq(b) == 0.0 ==> DistanceSqToSegment(p, a, b) == p.DistanceSq(a)
    ensures exists t :: 0.0 <= t <= 1.0 && DistanceSqToSegment(p, a, b) == p.DistanceSq(Lerp(a, b, t))
    ensures a.DistanceSq(b) != 0.0 ==>
      forall s :: 0.0 <= s <= 1.0 ==> DistanceSqToSegment(p, a, b) <= p.DistanceSq(Lerp(a, b, s))
  {
    var l2 := a.DistanceSq(b);
    DistanceSqNonNegative(a, b);
    if l2 == 0.0 {
      DistanceSqNonNegative(p, a);
      assert Lerp(a, b, 0.0) == a;
    } else {
      var t := ProjectionParam(SegmentDot(p, a, b), l2);
      ProjectionParamPlacement(SegmentDot(p, a, b), l2);
      DistanceSqNonNegative(p, Lerp(a, b, t));
      forall s | 0.0 <= s <= 1.0
        ensures DistanceSqToSegment(p, a, b) <= p.DistanceSq(Lerp(a, b, s))
      {
        ClampedVertexNoFarther(p, a, b, s, t);
      }
    }
  }

  // ---------------------------------------------------------------------------
  // Arrow type inference
  // ---------------------------------------------------------------------------

  /**
   * The type of an arrow drawn from side `src` to side `tgt`, by first match:
   * (Right, Left) Output; (Left, Right) Input; (_, Top) Control;
   * (_, Bottom) Mechanism; (Right, _) Output; (_, Left) Input; else Input.
   */
  function ArrowTypeFor(src: Side, tgt: Side): (t: ArrowType)
    ensures t == Control <==> tgt == Top
    ensures t == Mechanism <==> tgt == Bottom
    ensures t == Output <==> src == Right && (tgt == Left || tgt == Right)
    ensures t == Input <==> src != Right && (tgt == Left || tgt == Right)
  {
    match (src, tgt)
    case (Right, Left) => Output
    case (Left, Right) => Input
    case (_, Top) => Control
    case (_, Bottom) => Mechanism
    case (Right, _) => Output
    case (_, Left) => Input
    case _ => Input
  }

  // ---------------------------------------------------------------------------
  // Hit tests
  // ---------------------------------------------------------------------------

  /** The ids of every node whose rectangle contains `p`. */
  function NodeHits(nodes: seq<ProcessNode>, p: Pos2): set<NodeId> {
    if nodes == [] then {}
    else (if nodes[0].rect.Contains(p) then {nodes[0].id} else {}) + NodeHits(nodes[1..], p)
  }

  /** The first node, in iteration order, whose rectangle contains `p`: one of the hits, None when there is none. */
  function NodeAt(nodes: seq<ProcessNode>, p: Pos2): (r: Option<NodeId>)
    ensures r.None? <==> NodeHits(nodes, p) == {}
    ensures r.Some? ==> r.value in NodeHits(nodes, p)
  {
    if nodes == [] then None
    else if nodes[0].rect.Contains(p) then Some(nodes[0].id)
    else NodeAt(nodes[1..], p)
  }

  lemma {:induction false} NodeAtIsFirstHit(nodes: seq<ProcessNode>, p: Pos2)
    ensures NodeAt(nodes, p).None? <==> forall k :: 0 <= k < |nodes| ==> !nodes[k].rect.Contains(p)
    ensures NodeAt(nodes, p).Some? ==>
      exists k :: 0 <= k < |nodes| && nodes[k].id == NodeAt(nodes, p).value && nodes[k].rect.Contains(p)
        && forall j :: 0 <= j < k ==> !nodes[j].rect.Contains(p)
  {
    if nodes != [] && !nodes[0].rect.Contains(p) {
      NodeAtIsFirstHit(nodes[1..], p);
      if NodeAt(nodes, p).Some? {
        var k :| 0 <= k < |nodes[1..]| && nodes[1..][k].id == NodeAt(nodes, p).value && nodes[1..][k].rect.Contains(p)
          && forall j :: 0 <= j < k ==> !nodes[1..][j].rect.Contains(p);
        assert nodes[k + 1] == nodes[1..][k];
        assert forall j :: 1 <= j < k + 1 ==> nodes[j] == nodes[1..][j - 1];
      }
    }
  }

  /** The node loop of the press handlers: first node containing `clickPos`. */
  method FindNodeAt(nodes: seq<ProcessNode>, clickPos: Pos2) returns (clickedOnNode: Option<NodeId>)
    ensures clickedOnNode == NodeAt(nodes, clickPos)
  {
    var i := 0;
    while i < |nodes|
      invariant 0 <= i <= |nodes|
      invariant NodeAt(nodes[i..], clickPos) == NodeAt(nodes, clickPos)
    {
      assert nodes[i..][1..] == nodes[i + 1..];
      if nodes[i].rect.Contains(clickPos) {
        return Some(nodes[i].id);
      }
      i := i + 1;
    }
    return None;
  }

  /** Both endpoint nodes exist and `p` lies strictly within the selection tolerance of the arrow's segment. */
  predicate ArrowHit(a: Arrow, nodes: map<NodeId, ProcessNode>, p: Pos2) {
    && a.source.nodeId in nodes
    && a.target.nodeId in nodes
    && DistanceSqToSegment(p, ConnectionPos(nodes[a.source.nodeId], a.source.side),
                              ConnectionPos(nodes[a.target.nodeId], a.target.side))
       < ArrowSelectDistance * ArrowSelectDistance
  }

  /** The ids of every arrow hit at `p`. */
  function ArrowHits(arrows: seq<Arrow>, nodes: map<NodeId, ProcessNode>, p: Pos2): set<ArrowId> {
    if arrows == [] then {}
    else (if ArrowHit(arrows[0], nodes, p) then {arrows[0].id} else {}) + ArrowHits(arrows[1..], nodes, p)
  }

  /** The first arrow, in iteration order, hit at `p`: one of the hits, None when there is none. */
  function ArrowAt(arrows: seq<Arrow>, nodes: map<NodeId, ProcessNode>, p: Pos2): (r: Option<ArrowId>)
    ensures r.None? <==> ArrowHits(arrows, nodes, p) == {}
    ensures r.Some? ==> r.value in ArrowHits(arrows, nodes, p)
  {
    if arrows == [] then None
    else if ArrowHit(arrows[0], nodes, p) then Some(arrows[0].id)
    else ArrowAt(arrows[1..], nodes, p)
  }

  lemma {:induction false} ArrowAtIsFirstHit(arrows: seq<Arrow>, nodes: map<NodeId, ProcessNode>, p: Pos2)
    ensures ArrowAt(arrows, nodes, p).None? <==> forall k :: 0 <= k < |arrows| ==> !ArrowHit(arrows[k], nodes, p)
    ensures ArrowAt(arrows, nodes, p).Some? ==>
      exists k :: 0 <= k < |arrows| && arrows[k].id == ArrowAt(arrows, nodes, p).value && ArrowHit(arrows[k], nodes, p)
        && forall j :: 0 <= j < k ==> !ArrowHit(arrows[j], nodes, p)
  {
    if arrows != [] && !ArrowHit(arrows[0], nodes, p) {
      ArrowAtIsFirstHit(arrows[1..], nodes, p);
      if ArrowAt(arrows, nodes, p).Some? {
        var k :| 0 <= k < |arrows[1..]| && arrows[1..][k].id == ArrowAt(arrows, nodes, p).value
          && ArrowHit(arrows[1..][k], nodes, p) && forall j :: 0 <= j < k ==> !ArrowHit(arrows[1..][j], nodes, p);
        assert arrows[k + 1] == arrows[1..][k];
        assert forall j :: 1 <= j < k + 1 ==> arrows[j] == arrows[1..][j - 1];
      }
    }
  }

  /** The arrow loop of `handle_arrow_selection`: first arrow whose segment is within tolerance. */
  method FindArrowAt(arrows: seq<Arrow>, nodes: map<NodeId, ProcessNode>, clickPos: Pos2)
    returns (clickedOnArrow: Option<ArrowId>)
    ensures clickedOnArrow == ArrowAt(arrows, nodes, clickPos)
  {
    var i := 0;
    while i < |arrows|
      invariant 0 <= i <= |arrows|
      invariant ArrowAt(arrows[i..], nodes, clickPos) == ArrowAt(arrows, nodes, clickPos)
    {
      assert arrows[i..][1..] == arrows[i + 1..];
      var arrow := arrows[i];
      if arrow.source.nodeId in nodes && arrow.target.nodeId in nodes {
        var startPos := ConnectionPos(nodes[arrow.source.nodeId], arrow.source.side);
        var endPos := ConnectionPos(nodes[arrow.target.nodeId], arrow.target.side);
        if DistanceSqToSegment(clickPos, startPos, endPos) < ArrowSelectDistance * ArrowSelectDistance {
          return Some(arrow.id);
        }
      }
      i := i + 1;
    }
    return None;
  }

  // ---------------------------------------------------------------------------
  // Rename decision and node naming
  // ---------------------------------------------------------------------------

  /** What the rename window does this frame. */
  datatype RenameOutcome = StayOpen | Commit | Cancel

  /**
   * The chain of conditions in the rename window: Enter commits (whether or
   * not focus was lost), else Escape cancels, else losing focus cancels.
   */
  function RenameDecision(enter: bool, escape: bool, lostFocus: bool): (r: RenameOutcome)
    ensures r == Commit <==> enter
    ensures r == Cancel <==> !enter && (escape || lostFocus)
    ensures r == StayOpen <==> !enter && !escape && !lostFocus
  {
    if lostFocus && enter then Commit
    else if !lostFocus && enter then Commit
    else if escape then Cancel
    else if lostFocus then Cancel
    else StayOpen
  }

  /** An arrow label as committed from the edit buffer: an empty buffer clears the label. */
  function LabelFromBuffer(buffer: string): (l: Option<string>)
    ensures l.None? <==> buffer == ""
    ensures l.UnwrapOr("") == buffer
  {
    if buffer == "" then None else Some(buffer)
  }

  function DigitChar(d: nat): (c: char)
    requires d < 10
  {
    "0123456789"[d]
  }

  function DigitValue(c: char): nat {
    if '0' <= c <= '9' then (c - '0') as nat else 0
  }

  /** Decimal rendering of `n`, as `format!("{}", n)`. */
  function NatToString(n: nat): (s: string)
    ensures |s| >= 1
    ensures forall i :: 0 <= i < |s| ==> '0' <= s[i] <= '9'
  {
    if n < 10 then [DigitChar(n)] else NatToString(n / 10) + [DigitChar(n % 10)]
  }

  /** Reading a string of decimal digits. */
  function ParseDecimal(s: string): nat {
    if s == [] then 0 else 10 * ParseDecimal(s[..|s| - 1]) + DigitValue(s[|s| - 1])
  }

  /** The decimal rendering reads back as the same number. */
  lemma {:induction false} NatToStringRoundTrip(n: nat)
    ensures ParseDecimal(NatToString(n)) == n
  {
    var s := NatToString(n);
    if n < 10 {
      assert s[..|s| - 1] == [];
    } else {
      NatToStringRoundTrip(n / 10);
      assert s[..|s| - 1] == NatToString(n / 10);
    }
  }

  /**
   * Name of a node added from the context menu when the diagram holds
   * `count` nodes: the prefix "Activité " followed by digits that read back
   * as `count + 1`.
   */
  function NewNodeName(count: nat): (name: string)
    ensures |name| > 9 && name[..9] == "Activité "
    ensures forall i :: 9 <= i < |name| ==> '0' <= name[i] <= '9'
    ensures ParseDecimal(name[9..]) == count + 1
  {
    NatToStringRoundTrip(count + 1);
    var name := "Activité " + NatToString(count + 1);
    assert name[9..] == NatToString(count + 1);
    name
  }

  // ---------------------------------------------------------------------------
  // Events
  // ---------------------------------------------------------------------------

  /** The primary pointer as egui reports it for one frame over the canvas. */
  datatype PointerInput = PointerInput(
    hovered: bool,            // response.hovered()
    hoverPos: Option<Pos2>,   // response.hover_pos()
    pressed: bool,            // pointer.button_pressed(Primary)
    pressOrigin: Option<Pos2>,// pointer.press_origin()
    down: bool,               // pointer.button_down(Primary)
    released: bool,           // pointer.any_released()
    delta: Vec2)              // pointer.delta()

  /** The keyboard and focus events of one frame. */
  datatype KeyInput = KeyInput(
    enter: bool,
    escape: bool,
    delete: bool,             // Delete or Backspace pressed
    lostFocus: bool,          // the rename text field lost focus
    typed: Option<string>)    // the rename text field's content after this frame's edits, if edited

  /** A click on one of the context menu's buttons. */
  datatype MenuChoice = RenameNode | DeleteNode | EditArrowLabel | DeleteArrow | AddNode(pos: Pos2)

  datatype FrameInput = FrameInput(pointer: PointerInput, keys: KeyInput, menu: Option<MenuChoice>)

  /** `press_origin().unwrap_or_default()`. */
  function PressPos(ev: PointerInput): Pos2 {
    ev.pressOrigin.UnwrapOr(Origin)
  }

  /** At most one of the two selections is set. */
  predicate AtMostOneSelection(ui: UiState) {
    ui.selectedNode.None? || ui.selectedArrow.None?
  }

  /**
   * The UI state fits a diagram with these node and arrow ids: at most one
   * selection, selections and the pending arrow source name existing
   * elements, and nothing is selected while an arrow is being created.
   */
  predicate UiConsistent(ui: UiState, nodeIds: set<NodeId>, arrowIds: set<ArrowId>) {
    && AtMostOneSelection(ui)
    && (ui.selectedNode.Some? ==> ui.selectedNode.value in nodeIds)
    && (ui.selectedArrow.Some? ==> ui.selectedArrow.value in arrowIds)
    && (ui.arrowCreationStart.Some? ==>
          ui.arrowCreationStart.value.nodeId in nodeIds
          && ui.selectedNode.None? && ui.selectedArrow.None?)
  }

  /**
   * Where a plain press went, given what lies under it: a connection point
   * starts an arrow, else a node is selected and dragged, else an arrow is
   * selected, else the selection is cleared.
   */
  predicate PressOutcome(ui: UiState, dragged: bool, point: Option<ConnectionPoint>,
                         node: Option<NodeId>, arrow: Option<ArrowId>)
  {
    if point.Some? then
      ui.arrowCreationStart == point && ui.selectedNode.None? && ui.selectedArrow.None?
    else if node.Some? then
      ui.selectedNode == node && ui.selectedArrow.None? && ui.arrowCreationStart.None? && dragged
    else if arrow.Some? then
      ui.selectedArrow == arrow && ui.selectedNode.None? && ui.arrowCreationStart.None?
    else
      ui.selectedNode.None? && ui.selectedArrow.None? && ui.arrowCreationStart.None?
  }

  /** `after` is `before` plus exactly one new arrow with these fields under a fresh id. */
  ghost predicate OneArrowAdded(before: map<ArrowId, Arrow>, after: map<ArrowId, Arrow>,
                                source: ConnectionPoint, target: ConnectionPoint, t: ArrowType)
  {
    exists id :: id !in before && after == before[id := Arrow(id, None, t, source, target)]
  }

  // ---------------------------------------------------------------------------
  // The application state the handlers work on
  // ---------------------------------------------------------------------------

  /** The diagram, the UI state and egui's drag flag for the canvas. */
  class AppState {
    var diagram: SadtDiagram
    var ui: UiState
    /** egui's `is_being_dragged(response.id)` for the canvas. */
    var canvasDragged: bool

    /**
     * The diagram's own invariant and no dangling arrows; at most one
     * selection; selections and the pending arrow source name existing
     * elements; no selection while an arrow is being created.
     */
    ghost predicate Valid()
      reads this, diagram
    {
      && diagram.Valid()
      && diagram.Closed()
      && UiConsistent(ui, diagram.nodes.Keys, diagram.arrows.Keys)
    }

    /** A fresh application: empty diagram, default UI state, nothing dragged. */
    constructor ()
      ensures Valid() && fresh(diagram)
      ensures diagram.nodes == map[] && diagram.arrows == map[]
      ensures ui == DefaultUiState() && !canvasDragged
    {
      diagram := new SadtDiagram();
      ui := DefaultUiState();
      canvasDragged := false;
    }

    /**
     * `handle_arrow_selection`: on a press over the canvas while neither a
     * drag nor an arrow creation is under way, select the first arrow hit
     * unless a connection point is within the press radius; a press that
     * hits no arrow, no connection point and no node clears both selections.
     */
    method HandleArrowSelection(ev: PointerInput)
      requires Valid()
      modifies this`ui
      ensures Valid()
      ensures
        var click := PressPos(ev);
        var armed := ev.hovered && ev.pressed && !canvasDragged && old(ui).arrowCreationStart.None?;
        var nearPoint := ClosestConnectionPoint(diagram.NodeValues(), click, PressProbeRadius).Some?;
        var hit := ArrowAt(diagram.ArrowValues(), diagram.nodes, click);
        ui == if armed && hit.Some? && !nearPoint then old(ui).(selectedArrow := hit, selectedNode := None)
              else if armed && hit.None? && !nearPoint && NodeAt(diagram.NodeValues(), click).None?
              then old(ui).(selectedNode := None, selectedArrow := None)
              else old(ui)
    {
      if ev.hovered && ev.pressed && !canvasDragged && ui.arrowCreationStart.None? {
        var clickPos := PressPos(ev);
        var clickedOnArrow := FindArrowAt(diagram.ArrowValues(), diagram.nodes, clickPos);
        var nearPoint := FindClosestConnectionPoint(diagram.NodeValues(), clickPos, PressProbeRadius);
        if clickedOnArrow.Some? {
          if nearPoint.None? {
            ArrowAtIsLive(diagram, clickPos);
            ui := ui.(selectedArrow := clickedOnArrow, selectedNode := None);
          }
        } else {
          var clickedOnNode := FindNodeAt(diagram.NodeValues(), clickPos);
          if nearPoint.None? && clickedOnNode.None? {
            ui := ui.(selectedNode := None, selectedArrow := None);
          }
        }
      }
    }

    /**
     * `handle_node_drag_and_select`. A press over the canvas with no
     * connection point within the press radius hits the first node
     * containing it; that node is selected (and the arrow selection cleared)
     * and the canvas armed for dragging, unless an arrow creation is pending.
     * While the button is down, the canvas is dragged and no creation is
     * pending, the selected node's rectangle moves by the raw pointer delta.
     * Any release ends the drag.
     */
    method HandleNodeDragAndSelect(ev: PointerInput)
      requires Valid()
      modifies this`ui, this`canvasDragged, diagram
      ensures Valid()
      ensures
        var click := PressPos(ev);
        var onNode := if ev.hovered && ev.pressed && ClosestConnectionPoint(old(diagram.NodeValues()), click, PressProbeRadius).None?
                      then NodeAt(old(diagram.NodeValues()), click) else None;
        var selects := onNode.Some? && old(ui).arrowCreationStart.None?;
        var dragging := old(canvasDragged) || selects;
        && ui == (if selects then old(ui).(selectedNode := onNode, selectedArrow := None) else old(ui))
        && canvasDragged == (dragging && !ev.released)
        && (if ev.down && dragging && ui.arrowCreationStart.None? && ui.selectedNode.Some?
               && ui.selectedNode.value in old(diagram.nodes)
            then diagram.nodes == old(diagram.nodes)[ui.selectedNode.value :=
                   old(diagram.nodes)[ui.selectedNode.value].(rect := old(diagram.nodes)[ui.selectedNode.value].rect.Translate(ev.delta))]
            else diagram.nodes == old(diagram.nodes))
      ensures diagram.arrows == old(diagram.arrows)
      ensures diagram.nodeOrder == old(diagram.nodeOrder) && diagram.arrowOrder == old(diagram.arrowOrder)
    {
      SelectPressedNode(ev);
      DragSelectedNode(ev);
    }

    /**
     * The press half of `handle_node_drag_and_select`: a press with no
     * connection point within the press radius selects the first node
     * containing it and arms the canvas for dragging, unless an arrow
     * creation is pending.
     */
    method SelectPressedNode(ev: PointerInput)
      requires Valid()
      modifies this`ui, this`canvasDragged
      ensures Valid()
      ensures
        var click := PressPos(ev);
        var onNode := if ev.hovered && ev.pressed && ClosestConnectionPoint(diagram.NodeValues(), click, PressProbeRadius).None?
                      then NodeAt(diagram.NodeValues(), click) else None;
        var selects := onNode.Some? && old(ui).arrowCreationStart.None?;
        && ui == (if selects then old(ui).(selectedNode := onNode, selectedArrow := None) else old(ui))
        && canvasDragged == (old(canvasDragged) || selects)
    {
      if ev.hovered && ev.pressed {
        var clickPos := PressPos(ev);
        var nearPoint := FindClosestConnectionPoint(diagram.NodeValues(), clickPos, PressProbeRadius);
        var clickedOnNode := None;
        if nearPoint.None? {
          clickedOnNode := FindNodeAt(diagram.NodeValues(), clickPos);
        }
        if clickedOnNode.Some? && ui.arrowCreationStart.None? {
          NodeAtIsLive(diagram, clickPos);
          ui := ui.(selectedNode := clickedOnNode, selectedArrow := None);
          canvasDragged := true;
        }
      }
    }

    /**
     * The drag half of `handle_node_drag_and_select`: while the button is
     * down, the canvas is dragged and no creation is pending, the selected
     * node's rectangle moves by the raw pointer delta; any release ends the
     * drag.
     */
    method DragSelectedNode(ev: PointerInput)
      requires Valid()
      modifies this`canvasDragged, diagram
      ensures Valid()
      ensures canvasDragged == (old(canvasDragged) && !ev.released)
      ensures
        if ev.down && old(canvasDragged) && ui.arrowCreationStart.None? && ui.selectedNode.Some?
           && ui.selectedNode.value in old(diagram.nodes)
        then diagram.nodes == old(diagram.nodes)[ui.selectedNode.value :=
               old(diagram.nodes)[ui.selectedNode.value].(rect := old(diagram.nodes)[ui.selectedNode.value].rect.Translate(ev.delta))]
        else diagram.nodes == old(diagram.nodes)
      ensures diagram.arrows == old(diagram.arrows)
      ensures diagram.nodeOrder == old(diagram.nodeOrder) && diagram.arrowOrder == old(diagram.arrowOrder)
    {
      if ev.down && canvasDragged && ui.arrowCreationStart.None? {
        if ui.selectedNode.Some? {
          var nodeId := ui.selectedNode.value;
          var node := diagram.GetNode(nodeId);
          if node.Some? {
            var _ := diagram.SetNodeRect(nodeId, node.value.rect.Translate(ev.delta));
          }
        }
      }
      if ev.released && canvasDragged {
        canvasDragged := false;
      }
    }

    /**
     * `handle_arrow_creation`. A press within the press radius of a
     * connection point, while the canvas is not being dragged, clears both
     * selections and makes that point the pending source. On any release
     * while a source is pending, the connection point within the release
     * radius of the pointer is looked up; when it lies on an existing node
     * other than the source's, one arrow with the inferred type and no label
     * is added. The pending source is cleared on every release.
     */
    method HandleArrowCreation(ev: PointerInput)
      requires Valid()
      modifies this`ui, diagram
      ensures Valid()
      ensures
        var startPoint := ClosestConnectionPoint(old(diagram.NodeValues()), PressPos(ev), PressProbeRadius);
        var starts := ev.pressed && startPoint.Some? && !canvasDragged;
        var pending := if starts then startPoint else old(ui).arrowCreationStart;
        var endPoint := ClosestConnectionPoint(old(diagram.NodeValues()), old(ui).mousePos, ReleaseProbeRadius);
        var connects := ev.released && pending.Some? && endPoint.Some?
                        && pending.value.nodeId != endPoint.value.nodeId && endPoint.value.nodeId in old(diagram.nodes);
        && ui == old(ui).(selectedNode := if starts then None else old(ui).selectedNode,
                          selectedArrow := if starts then None else old(ui).selectedArrow,
                          arrowCreationStart := if ev.released then None else pending)
        && (connects ==> OneArrowAdded(old(diagram.arrows), diagram.arrows, pending.value, endPoint.value,
                                        ArrowTypeFor(pending.value.side, endPoint.value.side)))
        && (!connects ==> diagram.arrows == old(diagram.arrows))
      ensures diagram.nodes == old(diagram.nodes) && diagram.nodeOrder == old(diagram.nodeOrder)
    {
      StartArrow(ev);
      FinishArrow(ev);
    }

    /**
     * The start half of `handle_arrow_creation`: a press within the press
     * radius of a connection point, while the canvas is not being dragged,
     * clears both selections and makes that point the pending source.
     */
    method StartArrow(ev: PointerInput)
      requires Valid()
      modifies this`ui
      ensures Valid()
      ensures
        var startPoint := ClosestConnectionPoint(diagram.NodeValues(), PressPos(ev), PressProbeRadius);
        var starts := ev.pressed && startPoint.Some? && !canvasDragged;
        ui == if starts then old(ui).(selectedNode := None, selectedArrow := None, arrowCreationStart := startPoint)
              else old(ui)
    {
      if ev.pressed {
        var startPoint := FindClosestConnectionPoint(diagram.NodeValues(), PressPos(ev), PressProbeRadius);
        if startPoint.Some? {
          if !canvasDragged {
            ClosestIsLive(diagram, PressPos(ev), PressProbeRadius);
            ui := ui.(selectedNode := None, selectedArrow := None, arrowCreationStart := startPoint);
          }
        }
      }
    }

    /**
     * The release half of `handle_arrow_creation`: on any release while a
     * source is pending, add one arrow when the connection point within the
     * release radius of the pointer lies on an existing node other than the
     * source's, and clear the pending source.
     */
    method FinishArrow(ev: PointerInput)
      requires Valid()
      modifies this`ui, diagram
      ensures Valid()
      ensures
        var pending := old(ui).arrowCreationStart;
        var endPoint := ClosestConnectionPoint(old(diagram.NodeValues()), old(ui).mousePos, ReleaseProbeRadius);
        var connects := ev.released && pending.Some? && endPoint.Some?
                        && pending.value.nodeId != endPoint.value.nodeId && endPoint.value.nodeId in old(diagram.nodes);
        && ui == (if ev.released then old(ui).(arrowCreationStart := None) else old(ui))
        && (connects ==> OneArrowAdded(old(diagram.arrows), diagram.arrows, pending.value, endPoint.value,
                                        ArrowTypeFor(pending.value.side, endPoint.value.side)))
        && (!connects ==> diagram.arrows == old(diagram.arrows))
      ensures diagram.nodes == old(diagram.nodes) && diagram.nodeOrder == old(diagram.nodeOrder)
    {
      if ui.arrowCreationStart.Some? && ev.released {
        var startPoint := ui.arrowCreationStart.value;
        var endPoint := FindClosestConnectionPoint(diagram.NodeValues(), ui.mousePos, ReleaseProbeRadius);
        if endPoint.Some? && startPoint.nodeId != endPoint.value.nodeId && endPoint.value.nodeId in diagram.nodes {
          var arrowType := ArrowTypeFor(startPoint.side, endPoint.value.side);
          var id := diagram.AddArrow(startPoint, endPoint.value, arrowType, None);
          assert OneArrowAdded(old(diagram.arrows), diagram.arrows, startPoint, endPoint.value, arrowType) by {
            assert id.Some? && id.value !in old(diagram.arrows);
          }
        }
        ui := ui.(arrowCreationStart := None);
      } else if ev.released {
        ui := ui.(arrowCreationStart := None);
      }
    }

    /**
     * `handle_rename`, node first, then arrow. The window shows only while
     * the element exists; a stale id just leaves rename mode. Enter commits
     * the buffer (an arrow label becomes None when the buffer is empty);
     * Escape or focus loss discards it; either way rename mode ends and the
     * buffer is cleared.
     */
    method HandleRename(keys: KeyInput)
      requires Valid()
      modifies this`ui, diagram
      ensures Valid()
      ensures
        var buffer := keys.typed.UnwrapOr(old(ui).renamingLabelText);
        var decision := RenameDecision(keys.enter, keys.escape, keys.lostFocus);
        var closes := decision != StayOpen;
        if old(ui).renamingNode.Some? then
          var id := old(ui).renamingNode.value;
          && diagram.arrows == old(diagram.arrows)
          && if id in old(diagram.nodes) then
               && ui == old(ui).(renamingNode := if closes then None else old(ui).renamingNode,
                                 renamingLabelText := if closes then "" else buffer)
               && diagram.nodes == if decision == Commit then old(diagram.nodes)[id := old(diagram.nodes)[id].(name := buffer)]
                                   else old(diagram.nodes)
             else
               ui == old(ui).(renamingNode := None) && diagram.nodes == old(diagram.nodes)
        else if old(ui).renamingArrow.Some? then
          var id := old(ui).renamingArrow.value;
          && diagram.nodes == old(diagram.nodes)
          && if id in old(diagram.arrows) then
               && ui == old(ui).(renamingArrow := if closes then None else old(ui).renamingArrow,
                                 renamingLabelText := if closes then "" else buffer)
               && diagram.arrows == if decision == Commit then old(diagram.arrows)[id := old(diagram.arrows)[id].(labelText := LabelFromBuffer(buffer))]
                                    else old(diagram.arrows)
             else
               ui == old(ui).(renamingArrow := None) && diagram.arrows == old(diagram.arrows)
        else
          ui == old(ui) && diagram.nodes == old(diagram.nodes) && diagram.arrows == old(diagram.arrows)
      ensures diagram.nodeOrder == old(diagram.nodeOrder) && diagram.arrowOrder == old(diagram.arrowOrder)
      ensures ui.selectedNode == old(ui).selectedNode && ui.selectedArrow == old(ui).selectedArrow
      ensures ui.arrowCreationStart == old(ui).arrowCreationStart && ui.mousePos == old(ui).mousePos
    {
      if ui.renamingNode.Some? {
        var nodeId := ui.renamingNode.value;
        if diagram.GetNode(nodeId).Some? {
          var buffer := keys.typed.UnwrapOr(ui.renamingLabelText);
          ui := ui.(renamingLabelText := buffer);
          var decision := RenameDecision(keys.enter, keys.escape, keys.lostFocus);
          if decision != StayOpen {
            if decision == Commit {
              var _ := diagram.SetNodeName(nodeId, buffer);
            }
            ui := ui.(renamingNode := None, renamingLabelText := "");
          }
        } else {
          ui := ui.(renamingNode := None);
        }
      } else if ui.renamingArrow.Some? {
        var arrowId := ui.renamingArrow.value;
        if diagram.GetArrow(arrowId).Some? {
          var buffer := keys.typed.UnwrapOr(ui.renamingLabelText);
          ui := ui.(renamingLabelText := buffer);
          var decision := RenameDecision(keys.enter, keys.escape, keys.lostFocus);
          if decision != StayOpen {
            if decision == Commit {
              var _ := diagram.SetArrowLabel(arrowId, LabelFromBuffer(buffer));
            }
            ui := ui.(renamingArrow := None, renamingLabelText := "");
          }
        } else {
          ui := ui.(renamingArrow := None);
        }
      }
    }

    /**
     * `handle_deletion`: Delete or Backspace removes the selected node (and,
     * through `remove_node`, its arrows) or else the selected arrow, clears
     * that selection and both rename ids, and changes nothing else.
     */
    method HandleDeletion(keys: KeyInput)
      requires Valid()
      modifies this`ui, diagram
      ensures Valid()
      ensures !keys.delete || (old(ui).selectedNode.None? && old(ui).selectedArrow.None?) ==>
        ui == old(ui) && diagram.nodes == old(diagram.nodes) && diagram.arrows == old(diagram.arrows)
      ensures keys.delete && old(ui).selectedNode.Some? ==>
        var id := old(ui).selectedNode.value;
        && ui == old(ui).(selectedNode := None, renamingNode := None, renamingArrow := None)
        && diagram.nodes == old(diagram.nodes) - {id}
        && diagram.arrows == RetainUntouched(old(diagram.arrows), id)
      ensures keys.delete && old(ui).selectedNode.None? && old(ui).selectedArrow.Some? ==>
        var id := old(ui).selectedArrow.value;
        && ui == old(ui).(selectedArrow := None, renamingNode := None, renamingArrow := None)
        && diagram.nodes == old(diagram.nodes)
        && diagram.arrows == old(diagram.arrows) - {id}
      ensures ui.arrowCreationStart == old(ui).arrowCreationStart && ui.mousePos == old(ui).mousePos
    {
      if keys.delete {
        if ui.selectedNode.Some? {
          var nodeId := ui.selectedNode.value;
          ui := ui.(selectedNode := None);
          var _ := diagram.RemoveNode(nodeId);
          ui := ui.(renamingNode := None, renamingArrow := None);
        } else if ui.selectedArrow.Some? {
          var arrowId := ui.selectedArrow.value;
          ui := ui.(selectedArrow := None);
          var _ := diagram.RemoveArrow(arrowId);
          ui := ui.(renamingArrow := None, renamingNode := None);
        }
      }
    }

    /**
     * The context menu. With a node selected it offers rename (seed the
     * buffer with the node's name) and delete; else with an arrow selected,
     * label editing (seed the buffer with the label or "") and delete; else
     * adding a node named after the node count. A choice the menu does not
     * offer changes nothing.
     */
    method ContextMenu(choice: MenuChoice)
      requires Valid()
      modifies this`ui, diagram
      ensures Valid()
      ensures
        if old(ui).selectedNode.Some? then
          var id := old(ui).selectedNode.value;
          if choice == RenameNode then
            && ui == old(ui).(renamingNode := Some(id), renamingArrow := None,
                              renamingLabelText := old(diagram.nodes)[id].name)
            && diagram.nodes == old(diagram.nodes) && diagram.arrows == old(diagram.arrows)
          else if choice == DeleteNode then
            && ui == old(ui).(selectedNode := None)
            && diagram.nodes == old(diagram.nodes) - {id}
            && diagram.arrows == RetainUntouched(old(diagram.arrows), id)
          else
            ui == old(ui) && diagram.nodes == old(diagram.nodes) && diagram.arrows == old(diagram.arrows)
        else if old(ui).selectedArrow.Some? then
          var id := old(ui).selectedArrow.value;
          if choice == EditArrowLabel then
            && ui == old(ui).(renamingArrow := Some(id), renamingNode := None,
                              renamingLabelText := old(diagram.arrows)[id].labelText.UnwrapOr(""))
            && diagram.nodes == old(diagram.nodes) && diagram.arrows == old(diagram.arrows)
          else if choice == DeleteArrow then
            && ui == old(ui).(selectedArrow := None)
            && diagram.nodes == old(diagram.nodes)
            && diagram.arrows == old(diagram.arrows) - {id}
          else
            ui == old(ui) && diagram.nodes == old(diagram.nodes) && diagram.arrows == old(diagram.arrows)
        else if choice.AddNode? then
          && ui == old(ui)
          && diagram.arrows == old(diagram.arrows)
          && exists id :: id !in old(diagram.nodes) && id !in old(diagram.arrows)
               && diagram.nodes == old(diagram.nodes)[id := NewNode(id, NewNodeName(|old(diagram.nodes)|), choice.pos)]
        else
          ui == old(ui) && diagram.nodes == old(diagram.nodes) && diagram.arrows == old(diagram.arrows)
      ensures ui.arrowCreationStart == old(ui).arrowCreationStart && ui.mousePos == old(ui).mousePos
    {
      if ui.selectedNode.Some? {
        var nodeId := ui.selectedNode.value;
        if choice == RenameNode {
          var node := diagram.GetNode(nodeId);
          ui := ui.(renamingNode := Some(nodeId));
          ui := ui.(renamingLabelText := if node.Some? then node.value.name else "");
          ui := ui.(renamingArrow := None);
        } else if choice == DeleteNode {
          ui := ui.(selectedNode := None);
          var _ := diagram.RemoveNode(nodeId);
        }
      } else if ui.selectedArrow.Some? {
        var arrowId := ui.selectedArrow.value;
        if choice == EditArrowLabel {
          var arrow := diagram.GetArrow(arrowId);
          ui := ui.(renamingArrow := Some(arrowId));
          ui := ui.(renamingLabelText := if arrow.Some? then arrow.value.labelText.UnwrapOr("") else "");
          ui := ui.(renamingNode := None);
        } else if choice == DeleteArrow {
          ui := ui.(selectedArrow := None);
          var _ := diagram.RemoveArrow(arrowId);
        }
      } else if choice.AddNode? {
        var nodeName := NewNodeName(|diagram.nodes|);
        var id := diagram.AddNode(nodeName, choice.pos);
      }
    }

    /**
     * The three pointer handlers in their fixed order. Every release ends
     * arrow creation. On a plain press (no drag or creation under way, no
     * release) the press goes to a connection point before a node, and to a
     * node before an arrow; a press on none of them clears the selection.
     */
    method HandlePointer(ev: PointerInput)
      requires Valid()
      modifies this`ui, this`canvasDragged, diagram
      ensures Valid()
      ensures ev.released ==> ui.arrowCreationStart.None?
      ensures ui.mousePos == old(ui).mousePos
      ensures
        var click := PressPos(ev);
        var nodes := old(diagram.NodeValues());
        var plainPress := ev.hovered && ev.pressed && !ev.released
                          && old(ui).arrowCreationStart.None? && !old(canvasDragged);
        var point := ClosestConnectionPoint(nodes, click, PressProbeRadius);
        var node := NodeAt(nodes, click);
        var arrow := ArrowAt(old(diagram.ArrowValues()), old(diagram.nodes), click);
        plainPress ==> PressOutcome(ui, canvasDragged, point, node, arrow)
    {
      HandleArrowSelection(ev);
      HandleNodeDragAndSelect(ev);
      HandleArrowCreation(ev);
    }

    /**
     * `handle_canvas_interactions`: record the hover position, then run the
     * handlers in their fixed order and finally the context menu. Every
     * release ends arrow creation. On a plain press with no key or menu click
     * in the frame, the press priority of `HandlePointer` holds.
     */
    method HandleCanvasInteractions(frame: FrameInput)
      requires Valid()
      modifies this`ui, this`canvasDragged, diagram
      ensures Valid()
      ensures frame.pointer.released ==> ui.arrowCreationStart.None?
      ensures ui.mousePos == frame.pointer.hoverPos.UnwrapOr(Origin)
      ensures
        var ev := frame.pointer;
        var click := PressPos(ev);
        var nodes := old(diagram.NodeValues());
        var plainPress := ev.hovered && ev.pressed && !ev.released && !frame.keys.delete && frame.menu.None?
                          && old(ui).arrowCreationStart.None? && !old(canvasDragged);
        var point := ClosestConnectionPoint(nodes, click, PressProbeRadius);
        var node := NodeAt(nodes, click);
        var arrow := ArrowAt(old(diagram.ArrowValues()), old(diagram.nodes), click);
        plainPress ==> PressOutcome(ui, canvasDragged, point, node, arrow)
    {
      ghost var click := PressPos(frame.pointer);
      ghost var point := ClosestConnectionPoint(diagram.NodeValues(), click, PressProbeRadius);
      ghost var node := NodeAt(diagram.NodeValues(), click);
      ghost var arrow := ArrowAt(diagram.ArrowValues(), diagram.nodes, click);
      ghost var plainPress := frame.pointer.hovered && frame.pointer.pressed && !frame.pointer.released
                              && !frame.keys.delete && ui.arrowCreationStart.None? && !canvasDragged;
      ui := ui.(mousePos := frame.pointer.hoverPos.UnwrapOr(Origin));
      HandlePointer(frame.pointer);
      HandleRename(frame.keys);
      HandleDeletion(frame.keys);
      assert frame.menu.None? ==> PressOutcome(ui, canvasDragged, point, node, arrow) || !plainPress;
      if frame.menu.Some? {
        ContextMenu(frame.menu.value);
      }
    }
  }

  /** A connection point found on the diagram's nodes names one of them. */
  lemma ClosestIsLive(d: SadtDiagram, p: Pos2, r: real)
    requires d.Valid()
    ensures ClosestConnectionPoint(d.NodeValues(), p, r).Some? ==>
      ClosestConnectionPoint(d.NodeValues(), p, r).value.nodeId in d.nodes
  {
    if ClosestConnectionPoint(d.NodeValues(), p, r).Some? {
      ClosestIsNearest(d.NodeValues(), p, r);
    }
  }

  /** A node hit on the diagram's nodes is one of them. */
  lemma NodeAtIsLive(d: SadtDiagram, p: Pos2)
    requires d.Valid()
    ensures NodeAt(d.NodeValues(), p).Some? ==> NodeAt(d.NodeValues(), p).value in d.nodes
  {
    NodeAtIsFirstHit(d.NodeValues(), p);
  }

  /** An arrow hit on the diagram's arrows is one of them. */
  lemma ArrowAtIsLive(d: SadtDiagram, p: Pos2)
    requires d.Valid()
    ensures ArrowAt(d.ArrowValues(), d.nodes, p).Some? ==> ArrowAt(d.ArrowValues(), d.nodes, p).value in d.arrows
  {
    ArrowAtIsFirstHit(d.ArrowValues(), d.nodes, p);
  }
}
