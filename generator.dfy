/**
 * The data the code generator hands to its templates. For the Rust module,
 * every node becomes one function context whose four buckets (inputs,
 * outputs, controls, mechanisms) are filled by classifying every arrow of
 * the diagram against that node. For the Markdown document, every node
 * becomes one record of its id, name, position and size. The templates
 * themselves, and the rendering, are not part of this model.
 */
module Generator {
  import opened Options
  import opened Geometry
  import opened SadtElements
  import opened SadtModel

  /** One (label, type placeholder) pair of a bucket. */
  datatype Entry = Entry(labelText: string, placeholder: string)

  /** What the template receives for one node. */
  datatype FunctionContext = FunctionContext(
    name: string,
    inputs: seq<Entry>,
    outputs: seq<Entry>,
    controls: seq<Entry>,
    mechanisms: seq<Entry>)

  /** What the template receives for the whole module. */
  datatype ModuleContext = ModuleContext(moduleName: string, functions: seq<FunctionContext>)

  /** One node of the Markdown document. */
  datatype MarkdownNodeContext = MarkdownNodeContext(
    id: NodeId, name: string, x: real, y: real, width: real, height: real)

  /** The four buckets of a function context. */
  datatype Bucket = Inputs | Outputs | Controls | Mechanisms

  /** The one arrow type each bucket collects. */
  function BucketType(b: Bucket): ArrowType {
    match b
    case Inputs => Input
    case Outputs => Output
    case Controls => Control
    case Mechanisms => Mechanism
  }

  /** The label used when an arrow has none. */
  const DefaultLabel := "data"

  /** The placeholder type name the template prints for an arrow type. */
  function TypePlaceholder(t: ArrowType): (s: string)
    ensures PlaceholderType(s) == Some(t)
  {
    match t
    case Input => "InputData"
    case Output => "OutputData"
    case Control => "ControlParam"
    case Mechanism => "MechanismResource"
  }

  /** Reads a placeholder back: the arrow type it names, if any. */
  function PlaceholderType(s: string): Option<ArrowType> {
    if s == "InputData" then Some(Input)
    else if s == "OutputData" then Some(Output)
    else if s == "ControlParam" then Some(Control)
    else if s == "MechanismResource" then Some(Mechanism)
    else None
  }

  /** Different arrow types get different placeholders. */
  lemma TypePlaceholderInjective(t1: ArrowType, t2: ArrowType)
    ensures TypePlaceholder(t1) == TypePlaceholder(t2) ==> t1 == t2
  {
    assert PlaceholderType(TypePlaceholder(t1)) == Some(t1);
    assert PlaceholderType(TypePlaceholder(t2)) == Some(t2);
  }

  /** The entry an arrow contributes: its label, or "data" when it has none, and its placeholder. */
  function EntryOf(a: Arrow): (e: Entry)
    ensures a.labelText.Some? ==> e.labelText == a.labelText.value
    ensures a.labelText.None? ==> e.labelText == DefaultLabel
    ensures PlaceholderType(e.placeholder) == Some(a.arrowType)
  {
    Entry(a.labelText.UnwrapOr(DefaultLabel), TypePlaceholder(a.arrowType))
  }

  /**
   * The bucket the classification puts arrow `a` in for node `id`. The
   * target role is tested first: an arrow targeting the node goes to
   * inputs, controls or mechanisms by type, and an Output arrow targeting
   * it is dropped. Only otherwise does the source role count: an Output
   * arrow sourced at the node goes to outputs. A self-loop is therefore
   * classified by its target role alone.
   */
  function BucketOf(a: Arrow, id: NodeId): (b: Option<Bucket>)
    ensures b == Some(Inputs) <==> a.target.nodeId == id && a.arrowType == Input
    ensures b == Some(Controls) <==> a.target.nodeId == id && a.arrowType == Control
    ensures b == Some(Mechanisms) <==> a.target.nodeId == id && a.arrowType == Mechanism
    ensures b == Some(Outputs) <==> a.target.nodeId != id && a.source.nodeId == id && a.arrowType == Output
    ensures b.Some? ==> Touches(a, id)
  {
    if a.target.nodeId == id then
      match a.arrowType
      case Input => Some(Inputs)
      case Control => Some(Controls)
      case Mechanism => Some(Mechanisms)
      case Output => None
    else if a.source.nodeId == id then
      if a.arrowType == Output then Some(Outputs) else None
    else None
  }

  /**
   * The entries of `arrows`, in order, that land in bucket `b` of node `id`:
   * at most one per arrow, each carrying the placeholder of the bucket's type.
   */
  function Filed(arrows: seq<Arrow>, id: NodeId, b: Bucket): (es: seq<Entry>)
    ensures |es| <= |arrows|
    ensures forall k :: 0 <= k < |es| ==> PlaceholderType(es[k].placeholder) == Some(BucketType(b))
  {
    if arrows == [] then []
    else
      var last := arrows[|arrows| - 1];
      Filed(arrows[..|arrows| - 1], id, b) + (if BucketOf(last, id) == Some(b) then [EntryOf(last)] else [])
  }

  /** The arrows of `arrows`, in order, that land in some bucket of node `id`. */
  function Classified(arrows: seq<Arrow>, id: NodeId): seq<Arrow> {
    if arrows == [] then []
    else
      var last := arrows[|arrows| - 1];
      Classified(arrows[..|arrows| - 1], id) + (if BucketOf(last, id).Some? then [last] else [])
  }

  /** The arrows of `arrows`, in order, that start or end at node `id`. */
  function Touching(arrows: seq<Arrow>, id: NodeId): seq<Arrow> {
    if arrows == [] then []
    else
      var last := arrows[|arrows| - 1];
      Touching(arrows[..|arrows| - 1], id) + (if Touches(last, id) then [last] else [])
  }

  /** The function context of one node, classified against `arrows` in their iteration order. */
  function FunctionContextOf(node: ProcessNode, arrows: seq<Arrow>): (fc: FunctionContext)
    ensures fc.name == node.name
  {
    FunctionContext(node.name,
      Filed(arrows, node.id, Inputs), Filed(arrows, node.id, Outputs),
      Filed(arrows, node.id, Controls), Filed(arrows, node.id, Mechanisms))
  }

  /** The module context: one function context per node, in the nodes' iteration order. */
  function ModuleContextOf(moduleName: string, nodes: seq<ProcessNode>, arrows: seq<Arrow>): (m: ModuleContext)
    ensures m.moduleName == moduleName
    ensures |m.functions| == |nodes|
    ensures forall i :: 0 <= i < |nodes| ==> m.functions[i].name == nodes[i].name
  {
    ModuleContext(moduleName, seq(|nodes|, i requires 0 <= i < |nodes| => FunctionContextOf(nodes[i], arrows)))
  }

  /**
   * An entry is in bucket `b` of node `id` exactly when some arrow lands
   * there and contributes it.
   */
  lemma {:induction false} FiledMembers(arrows: seq<Arrow>, id: NodeId, b: Bucket, e: Entry)
    ensures e in Filed(arrows, id, b) <==>
      exists k :: 0 <= k < |arrows| && BucketOf(arrows[k], id) == Some(b) && e == EntryOf(arrows[k])
  {
    if arrows != [] {
      var init := arrows[..|arrows| - 1];
      FiledMembers(init, id, b, e);
      if e in Filed(init, id, b) {
        var k :| 0 <= k < |init| && BucketOf(init[k], id) == Some(b) && e == EntryOf(init[k]);
        assert arrows[k] == init[k];
      }
      if exists k :: 0 <= k < |arrows| && BucketOf(arrows[k], id) == Some(b) && e == EntryOf(arrows[k]) {
        var k :| 0 <= k < |arrows| && BucketOf(arrows[k], id) == Some(b) && e == EntryOf(arrows[k]);
        if k < |init| {
          assert init[k] == arrows[k];
        }
      }
    }
  }

  /** The four buckets together hold exactly one entry per classified arrow. */
  lemma {:induction false} BucketSizes(arrows: seq<Arrow>, id: NodeId)
    ensures |Filed(arrows, id, Inputs)| + |Filed(arrows, id, Outputs)|
          + |Filed(arrows, id, Controls)| + |Filed(arrows, id, Mechanisms)| == |Classified(arrows, id)|
  {
    if arrows != [] {
      BucketSizes(arrows[..|arrows| - 1], id);
    }
  }

  /** Only arrows touching the node are classified, so no more of them than touch it. */
  lemma {:induction false} ClassifiedAreTouching(arrows: seq<Arrow>, id: NodeId)
    ensures |Classified(arrows, id)| <= |Touching(arrows, id)|
    ensures forall a :: a in Classified(arrows, id) ==> a in Touching(arrows, id)
  {
    if arrows != [] {
      ClassifiedAreTouching(arrows[..|arrows| - 1], id);
    }
  }

  /**
   * The inner loop of `generate_rust_module` for one node: every arrow is
   * classified and its entry pushed onto the bucket it belongs to.
   */
  method ClassifyArrows(node: ProcessNode, arrows: seq<Arrow>) returns (fc: FunctionContext)
    ensures fc == FunctionContextOf(node, arrows)
  {
    var inputs, outputs, controls, mechanisms := [], [], [], [];
    var j := 0;
    while j < |arrows|
      invariant 0 <= j <= |arrows|
      invariant inputs == Filed(arrows[..j], node.id, Inputs)
      invariant outputs == Filed(arrows[..j], node.id, Outputs)
      invariant controls == Filed(arrows[..j], node.id, Controls)
      invariant mechanisms == Filed(arrows[..j], node.id, Mechanisms)
    {
      var arrow := arrows[j];
      var entry := Entry(arrow.labelText.UnwrapOr(DefaultLabel), TypePlaceholder(arrow.arrowType));
      if arrow.target.nodeId == node.id {
        match arrow.arrowType {
          case Input => inputs := inputs + [entry];
          case Control => controls := controls + [entry];
          case Mechanism => mechanisms := mechanisms + [entry];
          case Output =>
        }
      } else if arrow.source.nodeId == node.id {
        if arrow.arrowType == Output {
          outputs := outputs + [entry];
        }
      }
      assert arrows[..j + 1][..j] == arrows[..j];
      j := j + 1;
    }
    assert arrows[..j] == arrows;
    fc := FunctionContext(node.name, inputs, outputs, controls, mechanisms);
  }

  /**
   * `generate_rust_module` up to the template: the outer loop builds one
   * function context per node, in the nodes' iteration order.
   */
  method GenerateRustModuleContext(diagram: SadtDiagram, moduleName: string) returns (ctx: ModuleContext)
    requires diagram.Valid()
    ensures ctx == ModuleContextOf(moduleName, diagram.NodeValues(), diagram.ArrowValues())
  {
    var nodes := diagram.NodeValues();
    var arrows := diagram.ArrowValues();
    var functions := [];
    var i := 0;
    while i < |nodes|
      invariant 0 <= i <= |nodes|
      invariant |functions| == i
      invariant forall k :: 0 <= k < i ==> functions[k] == FunctionContextOf(nodes[k], arrows)
    {
      var fc := ClassifyArrows(nodes[i], arrows);
      functions := functions + [fc];
      i := i + 1;
    }
    ctx := ModuleContext(moduleName, functions);
  }

  /** The Markdown record of one node: its id and name, and a corner and size from which its rectangle is rebuilt. */
  function MarkdownNode(n: ProcessNode): (m: MarkdownNodeContext)
    ensures m.id == n.id && m.name == n.name
    ensures FromMinSize(Pos2(m.x, m.y), Vec2(m.width, m.height)) == n.rect
  {
    MarkdownNodeContext(n.id, n.name, n.rect.min.x, n.rect.min.y, n.rect.Width(), n.rect.Height())
  }

  /** `generate_markdown_doc` up to the template: one record per node, in iteration order. */
  function MarkdownDoc(nodes: seq<ProcessNode>): (doc: seq<MarkdownNodeContext>)
    ensures |doc| == |nodes|
    ensures forall i :: 0 <= i < |nodes| ==> doc[i].id == nodes[i].id && doc[i].name == nodes[i].name
    ensures forall i :: 0 <= i < |nodes| ==>
      && doc[i].x == nodes[i].rect.min.x && doc[i].y == nodes[i].rect.min.y
      && doc[i].width == nodes[i].rect.Width() && doc[i].height == nodes[i].rect.Height()
  {
    seq(|nodes|, i requires 0 <= i < |nodes| => MarkdownNode(nodes[i]))
  }

  /** A node fresh from `add_node` is documented at its anchor with the default 120 by 60 size. */
  lemma MarkdownOfNewNode(id: NodeId, name: string, pos: Pos2)
    ensures MarkdownNode(NewNode(id, name, pos)) == MarkdownNodeContext(id, name, pos.x, pos.y, 120.0, 60.0)
  {
    var n := NewNode(id, name, pos);
    assert n.rect.Width() == 120.0 && n.rect.Height() == 60.0;
  }

  /** The ids of the Markdown document list each node of the diagram exactly once. */
  lemma MarkdownListsEveryNodeOnce(d: SadtDiagram)
    requires d.Valid()
    ensures var doc := MarkdownDoc(d.NodeValues());
      && (forall i, j :: 0 <= i < j < |doc| ==> doc[i].id != doc[j].id)
      && (forall id :: id in d.nodes <==> exists i :: 0 <= i < |doc| && doc[i].id == id)
  {
    var ns := d.NodeValues();
    var doc := MarkdownDoc(ns);
    forall id | id in d.nodes
      ensures exists i :: 0 <= i < |doc| && doc[i].id == id
    {
      var i :| 0 <= i < |d.nodeOrder| && d.nodeOrder[i] == id;
      assert doc[i].id == id;
    }
  }
}
