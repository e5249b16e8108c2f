/**
 * The diagram store: a map of process nodes and a map of arrows, with the
 * operations that add and remove them. Removing a node cascades to every
 * arrow that touches it, so no arrow is ever left dangling.
 */
module SadtModel {
  import opened Options
  import opened Geometry
  import opened SadtElements

  /** Size of a node created by `add_node`: 120 wide, 60 high. */
  const DefaultNodeSize := Vec2(120.0, 60.0)

  /** Algorithm tag given to a node created by `add_node`. */
  const DefaultAlgorithm := "add"

  /** An activity box. */
  datatype ProcessNode = ProcessNode(id: NodeId, name: string, rect: Rect, algorithm: string)

  /** A typed, directed connection between two connection points. */
  datatype Arrow = Arrow(
    id: ArrowId,
    labelText: Option<string>,
    arrowType: ArrowType,
    source: ConnectionPoint,
    target: ConnectionPoint)

  /** The node `add_node` builds: anchored at `pos`, default size and algorithm. */
  function NewNode(id: NodeId, name: string, pos: Pos2): (n: ProcessNode)
    ensures n.id == id && n.name == name && n.algorithm == "add"
    ensures n.rect.min == pos && n.rect.IsPositive()
    ensures n.rect.Width() == 120.0 && n.rect.Height() == 60.0
  {
    ProcessNode(id, name, FromMinSize(pos, DefaultNodeSize), DefaultAlgorithm)
  }

  /** The arrow starts or ends at node `id`. */
  predicate Touches(a: Arrow, id: NodeId) {
    a.source.nodeId == id || a.target.nodeId == id
  }

  /** Every arrow endpoint names a node of `nodes`. */
  predicate NoDangling(nodes: map<NodeId, ProcessNode>, arrows: map<ArrowId, Arrow>) {
    forall aid :: aid in arrows ==> arrows[aid].source.nodeId in nodes && arrows[aid].target.nodeId in nodes
  }

  /** The arrows that `remove_node(id)` keeps: those that do not touch `id`. */
  function RetainUntouched(arrows: map<ArrowId, Arrow>, id: NodeId): (kept: map<ArrowId, Arrow>)
    ensures forall aid :: aid in kept ==> aid in arrows && kept[aid] == arrows[aid]
    ensures forall aid :: aid in kept ==> !Touches(kept[aid], id)
    ensures forall aid :: aid in arrows && !Touches(arrows[aid], id) ==> aid in kept
  {
    map aid | aid in arrows && !Touches(arrows[aid], id) :: arrows[aid]
  }

  /** Removing a node together with the arrows touching it keeps the store free of dangling arrows. */
  lemma RemoveNodeKeepsNoDangling(nodes: map<NodeId, ProcessNode>, arrows: map<ArrowId, Arrow>, id: NodeId)
    requires NoDangling(nodes, arrows)
    ensures NoDangling(nodes - {id}, RetainUntouched(arrows, id))
  {
    var kept := RetainUntouched(arrows, id);
    forall aid | aid in kept
      ensures kept[aid].source.nodeId in nodes - {id} && kept[aid].target.nodeId in nodes - {id}
    {
      assert kept[aid] == arrows[aid];
    }
  }

  /** Removing a node without its arrows can leave a dangling arrow: the cascade is needed. */
  lemma RemoveNodeWithoutCascadeDangles(nodes: map<NodeId, ProcessNode>, arrows: map<ArrowId, Arrow>, aid: ArrowId)
    requires aid in arrows && arrows[aid].source.nodeId in nodes
    ensures !NoDangling(nodes - {arrows[aid].source.nodeId}, arrows)
  {
    var id := arrows[aid].source.nodeId;
    assert arrows[aid].source.nodeId !in nodes - {id};
  }

  /** No two positions of `s` hold the same key. */
  predicate Distinct(s: seq<Uuid>) {
    forall i, j :: 0 <= i < j < |s| ==> s[i] != s[j]
  }

  /** `order` lists each key of `keys` exactly once: a fixed iteration order of a hash map. */
  predicate Enumerates(order: seq<Uuid>, keys: set<Uuid>) {
    Distinct(order) && (forall k :: k in order ==> k in keys) && (forall k :: k in keys ==> k in order)
  }

  /** `r` is `s` with some elements left out and the rest in their order. */
  predicate SubsequenceOf(r: seq<Uuid>, s: seq<Uuid>)
    decreases |s|
  {
    if r == [] then true
    else if s == [] then false
    else (r[0] == s[0] && SubsequenceOf(r[1..], s[1..])) || SubsequenceOf(r, s[1..])
  }

  /**
   * The keys of `order` that belong to `keep` (what a hash map's
   * `retain`/`remove` leaves): the survivors keep their relative order, and
   * when every key survives the order is unchanged.
   */
  function KeepOnly(order: seq<Uuid>, keep: set<Uuid>): (r: seq<Uuid>)
    ensures forall k :: k in r <==> k in order && k in keep
    ensures Distinct(order) ==> Distinct(r)
    ensures SubsequenceOf(r, order)
    ensures (forall k :: k in order ==> k in keep) ==> r == order
  {
    if order == [] then []
    else
      var rest := KeepOnly(order[1..], keep);
      assert forall k :: k in order[1..] ==> k in order;
      if order[0] in keep then
        assert Distinct(order) ==> order[0] !in order[1..];
        assert ([order[0]] + rest)[1..] == rest;
        [order[0]] + rest
      else rest
  }

  /** The values of `m` listed in the order `order`. */
  function ValuesInOrder<V>(order: seq<Uuid>, m: map<Uuid, V>): (vs: seq<V>)
    requires forall k :: k in order ==> k in m
    ensures |vs| == |order|
    ensures forall i :: 0 <= i < |order| ==> vs[i] == m[order[i]]
  {
    seq(|order|, i requires 0 <= i < |order| => m[order[i]])
  }

  /** `SadtDiagram`: the two maps, updated in place. */
  class SadtDiagram {
    var nodes: map<NodeId, ProcessNode>
    var arrows: map<ArrowId, Arrow>
    /** The order in which `nodes` is iterated. */
    var nodeOrder: seq<NodeId>
    /** The order in which `arrows` is iterated. */
    var arrowOrder: seq<ArrowId>
    /** Every id handed out so far is below `nextId`; this stands in for `Uuid::new_v4`. */
    var nextId: Uuid

    ghost predicate Valid()
      reads this
    {
      && Enumerates(nodeOrder, nodes.Keys)
      && Enumerates(arrowOrder, arrows.Keys)
      && (forall id :: id in nodes ==> nodes[id].id == id && id < nextId)
      && (forall id :: id in arrows ==> arrows[id].id == id && id < nextId)
    }

    /** No arrow is dangling. */
    predicate Closed()
      reads this
    {
      NoDangling(nodes, arrows)
    }

    /** `nodes.values()`, in iteration order. */
    function NodeValues(): (ns: seq<ProcessNode>)
      reads this
      requires Valid()
      ensures |ns| == |nodeOrder|
      ensures forall i :: 0 <= i < |ns| ==> ns[i] == nodes[nodeOrder[i]] && ns[i].id == nodeOrder[i]
      ensures forall i :: 0 <= i < |ns| ==> ns[i].id in nodes
    {
      ValuesInOrder(nodeOrder, nodes)
    }

    /** `arrows.values()`, in iteration order. */
    function ArrowValues(): (avs: seq<Arrow>)
      reads this
      requires Valid()
      ensures |avs| == |arrowOrder|
      ensures forall i :: 0 <= i < |avs| ==> avs[i] == arrows[arrowOrder[i]] && avs[i].id == arrowOrder[i]
      ensures forall i :: 0 <= i < |avs| ==> avs[i].id in arrows
    {
      ValuesInOrder(arrowOrder, arrows)
    }

    /** `SadtDiagram::new`: no nodes and no arrows. */
    constructor ()
      ensures Valid() && Closed()
      ensures nodes == map[] && arrows == map[]
      ensures nodeOrder == [] && arrowOrder == []
    {
      nodes, arrows := map[], map[];
      nodeOrder, arrowOrder := [], [];
      nextId := 0;
    }

    /** `add_node`: insert one node under a fresh id and return the id. */
    method AddNode(name: string, pos: Pos2) returns (id: NodeId)
      requires Valid()
      modifies this
      ensures Valid()
      ensures id !in old(nodes) && id !in old(arrows)
      ensures nodes == old(nodes)[id := NewNode(id, name, pos)]
      ensures nodeOrder == old(nodeOrder) + [id]
      ensures arrows == old(arrows) && arrowOrder == old(arrowOrder)
      ensures old(Closed()) ==> Closed()
    {
      id := nextId;
      nextId := nextId + 1;
      assert id !in nodeOrder;
      nodes := nodes[id := NewNode(id, name, pos)];
      nodeOrder := nodeOrder + [id];
    }

    /**
     * `add_arrow`: refused (None, nothing changes) when either endpoint's
     * node is absent; otherwise one arrow is inserted under a fresh id. The
     * endpoints may name the same node and any side/type combination is
     * accepted.
     */
    method AddArrow(source: ConnectionPoint, target: ConnectionPoint, arrowType: ArrowType, lbl: Option<string>)
      returns (r: Option<ArrowId>)
      requires Valid()
      modifies this
      ensures Valid()
      ensures nodes == old(nodes) && nodeOrder == old(nodeOrder)
      ensures r.Some? <==> source.nodeId in old(nodes) && target.nodeId in old(nodes)
      ensures r.None? ==> arrows == old(arrows) && arrowOrder == old(arrowOrder)
      ensures r.Some? ==> r.value !in old(arrows) && r.value !in old(nodes)
      ensures r.Some? ==> arrows == old(arrows)[r.value := Arrow(r.value, lbl, arrowType, source, target)]
      ensures r.Some? ==> arrowOrder == old(arrowOrder) + [r.value]
      ensures old(Closed()) ==> Closed()
    {
      if source.nodeId !in nodes || target.nodeId !in nodes {
        return None;
      }
      var id := nextId;
      nextId := nextId + 1;
      assert id !in arrowOrder;
      arrows := arrows[id := Arrow(id, lbl, arrowType, source, target)];
      arrowOrder := arrowOrder + [id];
      r := Some(id);
    }

    /** `get_node`: absence is an ordinary outcome. */
    function GetNode(id: NodeId): (r: Option<ProcessNode>)
      reads this
      requires Valid()
      ensures r.Some? <==> id in nodes
      ensures r.Some? ==> r.value == nodes[id] && r.value.id == id
    {
      if id in nodes then Some(nodes[id]) else None
    }

    /** `get_arrow`: absence is an ordinary outcome. */
    function GetArrow(id: ArrowId): (r: Option<Arrow>)
      reads this
      requires Valid()
      ensures r.Some? <==> id in arrows
      ensures r.Some? ==> r.value == arrows[id] && r.value.id == id
    {
      if id in arrows then Some(arrows[id]) else None
    }

    /** `get_node_mut(id)` followed by `node.rect = rect`: only the rectangle of that node changes. */
    method SetNodeRect(id: NodeId, rect: Rect) returns (found: bool)
      requires Valid()
      modifies this
      ensures Valid()
      ensures found == (id in old(nodes))
      ensures nodes == if found then old(nodes)[id := old(nodes)[id].(rect := rect)] else old(nodes)
      ensures arrows == old(arrows) && nodeOrder == old(nodeOrder) && arrowOrder == old(arrowOrder)
      ensures old(Closed()) ==> Closed()
    {
      found := id in nodes;
      if found {
        nodes := nodes[id := nodes[id].(rect := rect)];
      }
    }

    /** `get_node_mut(id)` followed by `node.name = name`: only the name of that node changes. */
    method SetNodeName(id: NodeId, name: string) returns (found: bool)
      requires Valid()
      modifies this
      ensures Valid()
      ensures found == (id in old(nodes))
      ensures nodes == if found then old(nodes)[id := old(nodes)[id].(name := name)] else old(nodes)
      ensures arrows == old(arrows) && nodeOrder == old(nodeOrder) && arrowOrder == old(arrowOrder)
      ensures old(Closed()) ==> Closed()
    {
      found := id in nodes;
      if found {
        nodes := nodes[id := nodes[id].(name := name)];
      }
    }

    /** `arrows.get_mut(id)` followed by `arrow.label = lbl`: only the label of that arrow changes. */
    method SetArrowLabel(id: ArrowId, lbl: Option<string>) returns (found: bool)
      requires Valid()
      modifies this
      ensures Valid()
      ensures found == (id in old(arrows))
      ensures arrows == if found then old(arrows)[id := old(arrows)[id].(labelText := lbl)] else old(arrows)
      ensures nodes == old(nodes) && nodeOrder == old(nodeOrder) && arrowOrder == old(arrowOrder)
      ensures old(Closed()) ==> Closed()
    {
      found := id in arrows;
      if found {
        arrows := arrows[id := arrows[id].(labelText := lbl)];
      }
    }

    /**
     * `remove_node`: drop every arrow whose source or target is `id`, keep
     * every other arrow, remove the node and return it if it was present.
     */
    method RemoveNode(id: NodeId) returns (removed: Option<ProcessNode>)
      requires Valid()
      modifies this
      ensures Valid()
      ensures removed == if id in old(nodes) then Some(old(nodes)[id]) else None
      ensures nodes == old(nodes) - {id}
      ensures arrows == RetainUntouched(old(arrows), id)
      ensures nodeOrder == KeepOnly(old(nodeOrder), nodes.Keys)
      ensures arrowOrder == KeepOnly(old(arrowOrder), arrows.Keys)
      ensures id !in old(nodes) ==> nodeOrder == old(nodeOrder)
      ensures old(Closed()) ==> Closed()
    {
      arrows := RetainUntouched(arrows, id);
      arrowOrder := KeepOnly(arrowOrder, arrows.Keys);
      removed := if id in nodes then Some(nodes[id]) else None;
      nodes := nodes - {id};
      nodeOrder := KeepOnly(nodeOrder, nodes.Keys);
      if old(Closed()) {
        RemoveNodeKeepsNoDangling(old(nodes), old(arrows), id);
      }
    }

    /** `remove_arrow`: drop only that arrow; nodes are never touched. */
    method RemoveArrow(id: ArrowId) returns (removed: Option<Arrow>)
      requires Valid()
      modifies this
      ensures Valid()
      ensures removed == if id in old(arrows) then Some(old(arrows)[id]) else None
      ensures arrows == old(arrows) - {id}
      ensures nodes == old(nodes) && nodeOrder == old(nodeOrder)
      ensures arrowOrder == KeepOnly(old(arrowOrder), arrows.Keys)
      ensures id !in old(arrows) ==> arrowOrder == old(arrowOrder)
      ensures old(Closed()) ==> Closed()
    {
      removed := if id in arrows then Some(arrows[id]) else None;
      arrows := arrows - {id};
      arrowOrder := KeepOnly(arrowOrder, arrows.Keys);
    }
  }
}
