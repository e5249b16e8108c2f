/**
 * The editor's transient state record and the geometric queries the
 * interaction code relies on: where a connection point sits, and which
 * connection point is closest to a position.
 */
module Drawing {
  import opened Options
  import opened Geometry
  import opened SadtElements
  import opened SadtModel
  import opened UiTransform

  /** Connection point radius, in world units. */
  const ConnectionPointRadius: real := 4.0

  /** The order in which the four sides of a node are scanned. */
  const ScanSides: seq<Side> := [Side.Left, Side.Right, Side.Top, Side.Bottom]

  /** The scan visits every side exactly once. */
  lemma ScanSidesCoverEachSideOnce(s: Side)
    ensures |ScanSides| == 4 && Distinct4(ScanSides)
    ensures s in ScanSides
  {
  }

  predicate Distinct4(sides: seq<Side>)
    requires |sides| == 4
  {
    forall i, j :: 0 <= i < j < 4 ==> sides[i] != sides[j]
  }

  /** `UiState`: selection, drag, arrow creation and rename state. */
  datatype UiState = UiState(
    selectedNode: Option<NodeId>,
    selectedArrow: Option<ArrowId>,
    draggingNode: Option<NodeId>,
    arrowCreationStart: Option<ConnectionPoint>,
    mousePos: Pos2,
    renamingNode: Option<NodeId>,
    renamingArrow: Option<ArrowId>,
    renamingLabelText: string)

  /** `UiState::default()`. */
  function DefaultUiState(): (u: UiState)
    ensures u.selectedNode.None? && u.selectedArrow.None? && u.draggingNode.None?
    ensures u.arrowCreationStart.None? && u.renamingNode.None? && u.renamingArrow.None?
    ensures u.renamingLabelText == "" && u.mousePos == Origin
  {
    UiState(None, None, None, None, Origin, None, None, "")
  }

  /** The two corners that bound side `side` of `r`. */
  function SideCorners(r: Rect, side: Side): (Pos2, Pos2) {
    match side
    case Left => (Pos2(r.min.x, r.min.y), Pos2(r.min.x, r.max.y))
    case Right => (Pos2(r.max.x, r.min.y), Pos2(r.max.x, r.max.y))
    case Top => (Pos2(r.min.x, r.min.y), Pos2(r.max.x, r.min.y))
    case Bottom => (Pos2(r.min.x, r.max.y), Pos2(r.max.x, r.max.y))
  }

  function Midpoint(a: Pos2, b: Pos2): Pos2 {
    Pos2((a.x + b.x) / 2.0, (a.y + b.y) / 2.0)
  }

  /** Position of the connection point on side `side` of rectangle `r`. */
  function ConnectionPosOfRect(r: Rect, side: Side): (p: Pos2)
    ensures p == Midpoint(SideCorners(r, side).0, SideCorners(r, side).1)
    ensures r.IsPositive() ==> r.Contains(p)
  {
    match side
    case Left => Pos2(r.Left(), r.Center().y)
    case Right => Pos2(r.Right(), r.Center().y)
    case Top => Pos2(r.Center().x, r.Top())
    case Bottom => Pos2(r.Center().x, r.Bottom())
  }

  /** `get_connection_pos`: the midpoint of the named side of the node's rectangle. */
  function ConnectionPos(node: ProcessNode, side: Side): (p: Pos2)
    ensures p == Midpoint(SideCorners(node.rect, side).0, SideCorners(node.rect, side).1)
    ensures node.rect.IsPositive() ==> node.rect.Contains(p)
  {
    ConnectionPosOfRect(node.rect, side)
  }

  /** Moving a node moves each of its connection points by the same delta. */
  lemma ConnectionPosFollowsNode(node: ProcessNode, side: Side, v: Vec2)
    ensures ConnectionPos(node.(rect := node.rect.Translate(v)), side) == ConnectionPos(node, side).Translate(v)
  {
  }

  /** Connection points may be computed in world space and then mapped, or on the mapped rectangle. */
  lemma ConnectionPosOnScreen(t: Transform, r: Rect, side: Side)
    ensures t.WorldToScreen(ConnectionPosOfRect(r, side)) == ConnectionPosOfRect(t.WorldRectToScreen(r), side)
  {
    var sr := Rect(t.WorldToScreen(r.min), t.WorldToScreen(r.max));
    assert t.WorldRectToScreen(r) == sr;
    assert sr.Center().x == (r.Center().x - t.pan.x) * t.zoom;
    assert sr.Center().y == (r.Center().y - t.pan.y) * t.zoom;
  }

  /** On a rectangle with non-zero width and height the four connection points are pairwise distinct. */
  lemma ConnectionPointsDistinct(r: Rect, s1: Side, s2: Side)
    requires r.min.x < r.max.x && r.min.y < r.max.y
    requires s1 != s2
    ensures ConnectionPosOfRect(r, s1) != ConnectionPosOfRect(r, s2)
  {
  }

  /** A connection point considered by the search, with its world position. */
  datatype Candidate = Candidate(cp: ConnectionPoint, pos: Pos2)

  function CandidateOf(node: ProcessNode, side: Side): Candidate {
    Candidate(ConnectionPoint(node.id, side), ConnectionPos(node, side))
  }

  /** The four candidates of one node, in scan order. */
  function NodeCandidates(node: ProcessNode): seq<Candidate> {
    [CandidateOf(node, ScanSides[0]), CandidateOf(node, ScanSides[1]),
     CandidateOf(node, ScanSides[2]), CandidateOf(node, ScanSides[3])]
  }

  /** Every connection point of `nodes`: nodes in order, each scanned Left, Right, Top, Bottom. */
  function Candidates(nodes: seq<ProcessNode>): (cs: seq<Candidate>)
    ensures |cs| == 4 * |nodes|
  {
    if nodes == [] then [] else NodeCandidates(nodes[0]) + Candidates(nodes[1..])
  }

  /** Candidate `4 * i + k` is side `ScanSides[k]` of node `i`. */
  lemma {:induction false} CandidateAt(nodes: seq<ProcessNode>, i: int, k: int)
    requires 0 <= i < |nodes| && 0 <= k < 4
    ensures Candidates(nodes)[4 * i + k] == CandidateOf(nodes[i], ScanSides[k])
  {
    if i > 0 {
      CandidateAt(nodes[1..], i - 1, k);
      assert Candidates(nodes) == NodeCandidates(nodes[0]) + Candidates(nodes[1..]);
    }
  }

  /** Every candidate is a side of one of the nodes. */
  lemma CandidateIsSide(nodes: seq<ProcessNode>, j: int)
    requires 0 <= j < |Candidates(nodes)|
    ensures 0 <= j / 4 < |nodes| && Candidates(nodes)[j] == CandidateOf(nodes[j / 4], ScanSides[j % 4])
  {
    CandidateAt(nodes, j / 4, j % 4);
  }

  function CandidateDistSq(c: Candidate, p: Pos2): real {
    c.pos.DistanceSq(p)
  }

  /**
   * The search loop as a fold: `best` is the point found so far and
   * `minDistSq` its squared distance (initially the squared radius); a
   * candidate replaces it only when strictly closer.
   */
  function Scan(cands: seq<Candidate>, p: Pos2, best: Option<ConnectionPoint>, minDistSq: real): Option<ConnectionPoint> {
    if cands == [] then best
    else if CandidateDistSq(cands[0], p) < minDistSq then
      Scan(cands[1..], p, Some(cands[0].cp), CandidateDistSq(cands[0], p))
    else
      Scan(cands[1..], p, best, minDistSq)
  }

  /** Candidate `k` is at least as close as every candidate and strictly closer than every earlier one. */
  predicate IsFirstClosest(cands: seq<Candidate>, p: Pos2, k: int)
    requires 0 <= k < |cands|
  {
    && (forall i :: 0 <= i < |cands| ==> CandidateDistSq(cands[k], p) <= CandidateDistSq(cands[i], p))
    && (forall i :: 0 <= i < k ==> CandidateDistSq(cands[k], p) < CandidateDistSq(cands[i], p))
  }

  /** What the fold computes: unchanged if nothing is below `m`, else the first closest candidate. */
  lemma {:induction false} ScanOutcome(cands: seq<Candidate>, p: Pos2, best: Option<ConnectionPoint>, m: real)
    ensures (forall i :: 0 <= i < |cands| ==> CandidateDistSq(cands[i], p) >= m) ==> Scan(cands, p, best, m) == best
    ensures (exists i :: 0 <= i < |cands| && CandidateDistSq(cands[i], p) < m) ==>
      exists k :: 0 <= k < |cands| && IsFirstClosest(cands, p, k) && CandidateDistSq(cands[k], p) < m
                  && Scan(cands, p, best, m) == Some(cands[k].cp)
  {
    if cands != [] {
      var c, tail := cands[0], cands[1..];
      var d := CandidateDistSq(c, p);
      if d < m {
        ScanOutcome(tail, p, Some(c.cp), d);
        if exists i :: 0 <= i < |tail| && CandidateDistSq(tail[i], p) < d {
          var k' :| 0 <= k' < |tail| && IsFirstClosest(tail, p, k') && CandidateDistSq(tail[k'], p) < d
                    && Scan(tail, p, Some(c.cp), d) == Some(tail[k'].cp);
          assert IsFirstClosest(cands, p, k' + 1);
        } else {
          assert IsFirstClosest(cands, p, 0);
        }
      } else {
        ScanOutcome(tail, p, best, m);
        if exists i :: 0 <= i < |cands| && CandidateDistSq(cands[i], p) < m {
          assert exists i :: 0 <= i < |tail| && CandidateDistSq(tail[i], p) < m;
          var k' :| 0 <= k' < |tail| && IsFirstClosest(tail, p, k') && CandidateDistSq(tail[k'], p) < m
                    && Scan(tail, p, best, m) == Some(tail[k'].cp);
          assert IsFirstClosest(cands, p, k' + 1);
        }
      }
    }
  }

  /** At most one candidate is the first closest. */
  lemma FirstClosestUnique(cands: seq<Candidate>, p: Pos2, k1: int, k2: int)
    requires 0 <= k1 < |cands| && 0 <= k2 < |cands|
    requires IsFirstClosest(cands, p, k1) && IsFirstClosest(cands, p, k2)
    ensures k1 == k2
  {
    assert CandidateDistSq(cands[k1], p) == CandidateDistSq(cands[k2], p);
  }

  /** A point found by the scan from no point is a side of one of the nodes, strictly below the bound. */
  lemma ScanNamesNode(nodes: seq<ProcessNode>, p: Pos2, m: real)
    ensures var r := Scan(Candidates(nodes), p, None, m);
      r.Some? ==>
        exists i :: 0 <= i < |nodes|
          && nodes[i].id == r.value.nodeId
          && ConnectionPos(nodes[i], r.value.side).DistanceSq(p) < m
  {
    var cands := Candidates(nodes);
    ScanOutcome(cands, p, None, m);
    if Scan(cands, p, None, m).Some? {
      var k :| 0 <= k < |cands| && IsFirstClosest(cands, p, k) && CandidateDistSq(cands[k], p) < m
        && Scan(cands, p, None, m) == Some(cands[k].cp);
      CandidateIsSide(nodes, k);
      assert nodes[k / 4].id == cands[k].cp.nodeId;
    }
  }

  /**
   * `find_closest_connection_point`, as a function of the nodes in iteration
   * order: a returned point is a side of one of the nodes, strictly within
   * the radius.
   */
  function ClosestConnectionPoint(nodes: seq<ProcessNode>, worldPos: Pos2, maxDistWorld: real): (r: Option<ConnectionPoint>)
    ensures r.Some? ==>
      exists i :: 0 <= i < |nodes|
        && nodes[i].id == r.value.nodeId
        && ConnectionPos(nodes[i], r.value.side).DistanceSq(worldPos) < maxDistWorld * maxDistWorld
  {
    ScanNamesNode(nodes, worldPos, maxDistWorld * maxDistWorld);
    Scan(Candidates(nodes), worldPos, None, maxDistWorld * maxDistWorld)
  }

  /** None exactly when no side of any node lies strictly within the radius; in particular on an empty diagram. */
  lemma ClosestNoneIff(nodes: seq<ProcessNode>, worldPos: Pos2, maxDistWorld: real)
    ensures ClosestConnectionPoint(nodes, worldPos, maxDistWorld).None? <==>
      forall i, side :: 0 <= i < |nodes| ==>
        ConnectionPos(nodes[i], side).DistanceSq(worldPos) >= maxDistWorld * maxDistWorld
    ensures nodes == [] ==> ClosestConnectionPoint(nodes, worldPos, maxDistWorld).None?
  {
    var cands, m := Candidates(nodes), maxDistWorld * maxDistWorld;
    ScanOutcome(cands, worldPos, None, m);
    if forall i, side :: 0 <= i < |nodes| ==> ConnectionPos(nodes[i], side).DistanceSq(worldPos) >= m {
      forall j | 0 <= j < |cands| ensures CandidateDistSq(cands[j], worldPos) >= m {
        CandidateIsSide(nodes, j);
      }
    } else {
      var i, side :| 0 <= i < |nodes| && ConnectionPos(nodes[i], side).DistanceSq(worldPos) < m;
      var k :| 0 <= k < 4 && ScanSides[k] == side;
      CandidateAt(nodes, i, k);
      assert CandidateDistSq(cands[4 * i + k], worldPos) < m;
    }
  }

  /**
   * A returned point belongs to one of the nodes, lies strictly within the
   * radius, no connection point is strictly closer, and every candidate
   * scanned before it is strictly farther.
   */
  lemma ClosestIsFirstNearest(nodes: seq<ProcessNode>, worldPos: Pos2, maxDistWorld: real)
    requires ClosestConnectionPoint(nodes, worldPos, maxDistWorld).Some?
    ensures var cp := ClosestConnectionPoint(nodes, worldPos, maxDistWorld).value;
      exists k :: 0 <= k < |Candidates(nodes)| && Candidates(nodes)[k].cp == cp
        && IsFirstClosest(Candidates(nodes), worldPos, k)
        && CandidateDistSq(Candidates(nodes)[k], worldPos) < maxDistWorld * maxDistWorld
  {
    ScanOutcome(Candidates(nodes), worldPos, None, maxDistWorld * maxDistWorld);
  }

  /** A returned point names one of the nodes, lies within the radius and no side of any node is strictly closer. */
  lemma ClosestIsNearest(nodes: seq<ProcessNode>, worldPos: Pos2, maxDistWorld: real)
    requires ClosestConnectionPoint(nodes, worldPos, maxDistWorld).Some?
    ensures var cp := ClosestConnectionPoint(nodes, worldPos, maxDistWorld).value;
      exists i :: 0 <= i < |nodes| && nodes[i].id == cp.nodeId
        && ConnectionPos(nodes[i], cp.side).DistanceSq(worldPos) < maxDistWorld * maxDistWorld
        && forall j, side :: 0 <= j < |nodes| ==>
             ConnectionPos(nodes[i], cp.side).DistanceSq(worldPos) <= ConnectionPos(nodes[j], side).DistanceSq(worldPos)
  {
    var cands := Candidates(nodes);
    var cp := ClosestConnectionPoint(nodes, worldPos, maxDistWorld).value;
    ClosestIsFirstNearest(nodes, worldPos, maxDistWorld);
    var k :| 0 <= k < |cands| && cands[k].cp == cp && IsFirstClosest(cands, worldPos, k)
      && CandidateDistSq(cands[k], worldPos) < maxDistWorld * maxDistWorld;
    CandidateIsSide(nodes, k);
    var i := k / 4;
    assert nodes[i].id == cp.nodeId && ConnectionPos(nodes[i], cp.side) == cands[k].pos;
    forall j, side | 0 <= j < |nodes|
      ensures cands[k].pos.DistanceSq(worldPos) <= ConnectionPos(nodes[j], side).DistanceSq(worldPos)
    {
      var s :| 0 <= s < 4 && ScanSides[s] == side;
      CandidateAt(nodes, j, s);
      assert CandidateDistSq(cands[k], worldPos) <= CandidateDistSq(cands[4 * j + s], worldPos);
    }
  }

  /** Widening the radius never changes a found point (release searches with a larger radius than press). */
  lemma ClosestStableUnderLargerRadius(nodes: seq<ProcessNode>, worldPos: Pos2, r: real, r': real)
    requires 0.0 <= r <= r'
    requires ClosestConnectionPoint(nodes, worldPos, r).Some?
    ensures ClosestConnectionPoint(nodes, worldPos, r') == ClosestConnectionPoint(nodes, worldPos, r)
  {
    var cands := Candidates(nodes);
    assert r * r <= r' * r' by {
      assert r * r <= r * r' <= r' * r';
    }
    ScanOutcome(cands, worldPos, None, r * r);
    ScanOutcome(cands, worldPos, None, r' * r');
    var k :| 0 <= k < |cands| && IsFirstClosest(cands, worldPos, k) && CandidateDistSq(cands[k], worldPos) < r * r
      && Scan(cands, worldPos, None, r * r) == Some(cands[k].cp);
    var k' :| 0 <= k' < |cands| && IsFirstClosest(cands, worldPos, k') && CandidateDistSq(cands[k'], worldPos) < r' * r'
      && Scan(cands, worldPos, None, r' * r') == Some(cands[k'].cp);
    FirstClosestUnique(cands, worldPos, k, k');
  }

  /**
   * `find_closest_connection_point`: scan every node and, within a node,
   * Left, Right, Top, Bottom; keep a point only when strictly closer than
   * the best so far, starting from the squared radius.
   */
  method FindClosestConnectionPoint(nodes: seq<ProcessNode>, worldPos: Pos2, maxDistWorld: real)
    returns (closestPoint: Option<ConnectionPoint>)
    ensures closestPoint == ClosestConnectionPoint(nodes, worldPos, maxDistWorld)
  {
    var maxDistSq := maxDistWorld * maxDistWorld;
    closestPoint := None;
    var minDistSq := maxDistSq;
    for i := 0 to |nodes|
      invariant Scan(Candidates(nodes[i..]), worldPos, closestPoint, minDistSq) == ClosestConnectionPoint(nodes, worldPos, maxDistWorld)
    {
      var node := nodes[i];
      assert Candidates(nodes[i..]) == NodeCandidates(node) + Candidates(nodes[i + 1..]) by {
        assert nodes[i..][1..] == nodes[i + 1..];
      }
      for k := 0 to 4
        invariant Scan(NodeCandidates(node)[k..] + Candidates(nodes[i + 1..]), worldPos, closestPoint, minDistSq)
                  == ClosestConnectionPoint(nodes, worldPos, maxDistWorld)
      {
        var side := ScanSides[k];
        var connPosWorld := ConnectionPos(node, side);
        var distSq := connPosWorld.DistanceSq(worldPos);
        ghost var rest := NodeCandidates(node)[k..] + Candidates(nodes[i + 1..]);
        assert rest[0] == CandidateOf(node, side) && rest[1..] == NodeCandidates(node)[k + 1..] + Candidates(nodes[i + 1..]);
        if distSq < minDistSq {
          minDistSq := distSq;
          closestPoint := Some(ConnectionPoint(node.id, side));
        }
      }
      assert NodeCandidates(node)[4..] + Candidates(nodes[i + 1..]) == Candidates(nodes[i + 1..]);
    }
  }
}
