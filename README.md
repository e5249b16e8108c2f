# SADT diagram engine — a Dafny model

This project models the engine of an SADT (Structured Analysis and Design
Technique) diagram editor. Activity boxes ("process nodes") are joined by
typed arrows (input, output, control, mechanism) that start and end at the
midpoint of a box side. The model covers:

- the element vocabulary: arrow types, box sides, connection points (`SadtElements`);
- the diagram store: two maps updated in place, where removing a node also
  removes every arrow touching it (`SadtModel.SadtDiagram`);
- the pan/zoom map between world and screen coordinates (`UiTransform`);
- connection-point geometry and the closest-connection-point search (`Drawing`);
- the canvas interaction rules (`Interaction`):
  - point-to-segment distance;
  - the side-pair → arrow-type table;
  - node and arrow hit tests;
  - selection, dragging, arrow creation, renaming, keyboard deletion and the
    context menu, as methods of `Interaction.AppState`;
- the data handed to the code templates (`Generator`): every node's arrows
  sorted into the four SADT buckets, and the Markdown node records.

Modelling choices:

- Coordinates are `real`.
- Ids are natural numbers. The diagram keeps a `nextId` counter that stands
  in for fresh version-4 UUIDs (RFC 4122 section 4.4). A fresh id is unused
  by nodes and arrows alike.
- Hash-map iteration order is an explicit sequence (`nodeOrder`,
  `arrowOrder`). So "the first node hit" and tie-breaks are deterministic.
  Removals keep the relative order of the remaining keys.
- Pointer, keyboard and menu input of one frame are plain values
  (`PointerInput`, `KeyInput`, `MenuChoice`, `FrameInput`).
- `AppState.canvasDragged` is the part of egui's drag flag for the canvas that
  the handlers set and clear. egui's own drag detection is not modelled.
- Each handler is proved to keep `AppState.Valid()`:
  - the diagram's own invariant holds, and no arrow dangles;
  - at most one of the node and arrow selections is set;
  - every selection, and the pending arrow source, names an existing element;
  - nothing is selected while an arrow is being created.

Where the code differs from what SADT or its own comments suggest, the model
follows the code:

- `add_arrow` accepts two endpoints on the same node. Only the interaction
  layer refuses self-loops.
- The side/type checks in `add_arrow` have empty bodies, so any side/type
  pair is accepted.
- The handlers use raw pointer positions and deltas, with no world/screen
  transform. A drag moves the node by the raw pointer delta.
- A click selects the first arrow within tolerance in iteration order, not
  the nearest one.
- The effective click priority follows from the fixed handler order:
  connection point, then node, then arrow (`Interaction.AppState.HandlePointer`).

## Model

| member | source | states |
|---|---|---|
| SadtModel.NewNode | src/sadt_model.rs:38-48 | the node `add_node` builds carries the given id and name, algorithm "add", its rectangle is anchored at `pos`, positive, 120 wide and 60 high |
| SadtModel.RetainUntouched | src/sadt_model.rs:97-101 | the arrows kept by `remove_node` are exactly the arrows not touching the node, unchanged |
| SadtModel.RemoveNodeKeepsNoDangling | src/sadt_model.rs:97-101 | removing a node together with the arrows touching it leaves no dangling arrow |
| SadtModel.RemoveNodeWithoutCascadeDangles | src/sadt_model.rs:97-101 | without the cascade, removing an arrow's source node leaves that arrow dangling |
| SadtModel.KeepOnly | src/sadt_model.rs:97-104 | the iteration order after `retain`/`remove` holds exactly the surviving keys, without repeats, in their old relative order; when every key survives the order is unchanged |
| SadtModel.ValuesInOrder | src/sadt_model.rs:27-31 | the map's values listed in the iteration order, one per key |
| SadtModel.SadtDiagram.NodeValues | src/sadt_model.rs:28 | `nodes.values()`: one node per key of the iteration order, each stored under its own id |
| SadtModel.SadtDiagram.ArrowValues | src/sadt_model.rs:29 | `arrows.values()`: one arrow per key of the iteration order, each stored under its own id |
| SadtModel.SadtDiagram.constructor | src/sadt_model.rs:34-36 | a new diagram has no nodes and no arrows |
| SadtModel.SadtDiagram.AddNode | src/sadt_model.rs:38-48 | exactly one node is inserted under an id fresh for nodes and arrows; arrows unchanged; no dangling arrow appears |
| SadtModel.SadtDiagram.AddArrow | src/sadt_model.rs:50-83 | None and no change exactly when an endpoint's node is absent; otherwise exactly one arrow with the given label, type and endpoints under a fresh id; same-node endpoints and any side/type pair accepted; nodes never change |
| SadtModel.SadtDiagram.GetNode | src/sadt_model.rs:85-87 | Some exactly when the id is a key, and then the stored node |
| SadtModel.SadtDiagram.GetArrow | src/sadt_model.rs:93-95 | Some exactly when the id is a key, and then the stored arrow |
| SadtModel.SadtDiagram.SetNodeRect | src/sadt_model.rs:89-91 | through `get_node_mut`, only that node's rectangle changes, and only when the node exists |
| SadtModel.SadtDiagram.SetNodeName | src/sadt_model.rs:89-91 | through `get_node_mut`, only that node's name changes, and only when the node exists |
| SadtModel.SadtDiagram.SetArrowLabel | src/ui/interaction.rs:369-371 | through `arrows.get_mut`, only that arrow's label changes, and only when the arrow exists |
| SadtModel.SadtDiagram.RemoveNode | src/sadt_model.rs:97-101 | returns the node if present; removes it and exactly the arrows touching it; both iteration orders keep the survivors in order; an absent id changes no node and leaves the node order as it was |
| SadtModel.SadtDiagram.RemoveArrow | src/sadt_model.rs:103-105 | returns the arrow if present; removes only that arrow and keeps the other arrows in order; an absent id leaves the arrow order as it was; nodes never change |
| UiTransform.PanIsUnderScreenOrigin | src/ui/transform.rs:5-8 | the world point `pan` is drawn at the screen origin and the screen origin shows `pan` |
| UiTransform.Transform.ScreenToWorld | src/ui/transform.rs:24-28 | `screen_to_world`: the world point that `world_to_screen` draws at the given screen point |
| UiTransform.Transform.WorldToScreen | src/ui/transform.rs:32-37 | `world_to_screen`: under a non-zero zoom only the world point `pan` lands on the screen origin |
| UiTransform.Transform.WorldRectToScreen | src/ui/transform.rs:42-47 | `world_rect_to_screen`: the mapped rectangle's width and height are the world ones times the zoom |
| UiTransform.Transform.ScreenVecToWorld | src/ui/transform.rs:52-54 | `screen_vec_to_world`: the world delta that `world_vec_to_screen` maps back to the given screen delta |
| UiTransform.Transform.WorldVecToScreen | src/ui/transform.rs:59-61 | `world_vec_to_screen`: under a non-zero zoom only the zero delta maps to zero |
| UiTransform.WorldScreenWorld | src/ui/transform.rs:24-38 | `screen_to_world(world_to_screen(p)) == p` for non-zero zoom |
| UiTransform.ScreenWorldScreen | src/ui/transform.rs:24-38 | `world_to_screen(screen_to_world(s)) == s` for non-zero zoom |
| UiTransform.VectorConversionsInverse | src/ui/transform.rs:52-61 | the two delta conversions are mutual inverses and do not depend on the pan |
| UiTransform.WorldDeltasFollowPoints | src/ui/transform.rs:32-38 | moving a world point by a delta moves its screen image by the converted delta |
| UiTransform.ScreenDeltasFollowPoints | src/ui/transform.rs:24-28 | moving a screen point by a delta moves its world image by the converted delta |
| UiTransform.WorldRectToScreenKeepsShape | src/ui/transform.rs:42-47 | under positive zoom a well-formed rectangle stays well-formed, its sides scaled by the zoom |
| Drawing.ScanSidesCoverEachSideOnce | src/ui/drawing.rs:169 | the side scan visits each of the four sides exactly once |
| Drawing.DefaultUiState | src/ui/drawing.rs:13-23 | `UiState::default()` has every selection, drag, creation and renaming field None, an empty buffer and the origin as mouse position |
| Drawing.ConnectionPosOfRect | src/ui/drawing.rs:149-156 | the connection point is the midpoint of the two corners bounding the named side, and lies inside a well-formed rectangle |
| Drawing.ConnectionPos | src/ui/drawing.rs:149-156 | `get_connection_pos`: the midpoint of the named side of the node's rectangle, inside a well-formed rectangle |
| Drawing.ConnectionPosFollowsNode | src/ui/drawing.rs:149-156 | moving a node moves each of its connection points by the same delta |
| Drawing.ConnectionPosOnScreen | src/ui/drawing.rs:149-156 | connection points commute with the world-to-screen map of the rectangle |
| Drawing.ConnectionPointsDistinct | src/ui/drawing.rs:149-156 | on a rectangle with non-zero width and height the four connection points are pairwise distinct |
| Drawing.Candidates | src/ui/drawing.rs:168-169 | the scan visits four candidates per node |
| Drawing.CandidateAt | src/ui/drawing.rs:168-169 | candidate `4i + k` of the scan is side `k` of node `i` |
| Drawing.CandidateIsSide | src/ui/drawing.rs:168-169 | every scanned candidate is a side of one of the nodes |
| Drawing.ScanOutcome | src/ui/drawing.rs:164-177 | the strict-`<` search keeps its start value when nothing is below the bound, else returns the first among the closest candidates |
| Drawing.FirstClosestUnique | src/ui/drawing.rs:172-175 | at most one candidate is the first closest, so ties go to the earliest |
| Drawing.ScanNamesNode | src/ui/drawing.rs:164-177 | a point found by the scan is a side of one of the nodes, strictly below the bound |
| Drawing.ClosestConnectionPoint | src/ui/drawing.rs:159-178 | `find_closest_connection_point`: a returned point is a side of one of the nodes strictly within the radius |
| Drawing.ClosestNoneIff | src/ui/drawing.rs:159-178 | None exactly when no side of any node is strictly within the radius; None on an empty diagram |
| Drawing.ClosestIsFirstNearest | src/ui/drawing.rs:164-177 | a returned point is a candidate strictly within the radius, no candidate is closer and every earlier one is strictly farther |
| Drawing.ClosestIsNearest | src/ui/drawing.rs:164-177 | a returned point names one of the nodes, lies strictly within the radius, and no side of any node is strictly closer |
| Drawing.ClosestStableUnderLargerRadius | src/ui/drawing.rs:159-178 | a point found with radius r is found again with every larger radius |
| Drawing.FindClosestConnectionPoint | src/ui/drawing.rs:159-178 | the nested node × side loop returns exactly the closest-point search result |
| Interaction.QuotientBounds | src/ui/interaction.rs:13-14 | the raw projection parameter is below 0 or above 1 only when the dot product is below 0 or above the squared length |
| Interaction.ProjectionParamPlacement | src/ui/interaction.rs:13-14 | the clamped parameter lies in [0, 1] and is the unclamped vertex or the end it was clamped to |
| Interaction.DistanceAlongLine | src/ui/interaction.rs:13-16 | the squared distance to `a + (b - a)s` is a quadratic in `s` whose coefficients are the dot product and the squared length |
| Interaction.QuadraticMinimum | src/ui/interaction.rs:13-16 | that quadratic is no larger at the clamped vertex than anywhere on [0, 1] |
| Interaction.ClampedVertexNoFarther | src/ui/interaction.rs:13-16 | the clamped projection is no farther from `p` than any point of the segment |
| Interaction.DistanceSqToSegment | src/ui/interaction.rs:10-17 | `distance_sq_to_segment`: non-negative, never more than the squared distance to `a`, and for a segment of non-zero squared length never more than the squared distance to `b` |
| Interaction.DistanceSqToSegmentIsMinimum | src/ui/interaction.rs:10-17 | the result is non-negative, equals the squared distance to `a` for a zero-length segment, is the distance to some point of the segment, and for a segment of non-zero squared length no point of the segment (both ends included) is closer |
| Interaction.ArrowTypeFor | src/ui/interaction.rs:253-261 | Control exactly when the target is Top, Mechanism exactly when it is Bottom, Output exactly for a Right source into a Left or Right side, Input exactly for any other source into a Left or Right side |
| Interaction.NodeAt | src/ui/interaction.rs:107-113 | the first node containing the point: None exactly when no node is hit, otherwise one of the hit nodes |
| Interaction.NodeAtIsFirstHit | src/ui/interaction.rs:107-113 | None exactly when no node contains the point; otherwise the first node in iteration order that contains it |
| Interaction.FindNodeAt | src/ui/interaction.rs:107-113 | the node loop with early `break` returns exactly that first hit |
| Interaction.ArrowAt | src/ui/interaction.rs:162-175 | the first arrow hit at the point: None exactly when no arrow is hit, otherwise one of the hit arrows |
| Interaction.ArrowAtIsFirstHit | src/ui/interaction.rs:162-175 | None exactly when no arrow with both endpoint nodes present lies within 5.0 of the point; otherwise the first such arrow in iteration order |
| Interaction.FindArrowAt | src/ui/interaction.rs:162-175 | the arrow loop with early `break` returns exactly that first hit |
| Interaction.RenameDecision | src/ui/interaction.rs:295-308 | Enter commits whether or not focus was lost; without Enter, Escape or focus loss cancels; otherwise the window stays open |
| Interaction.LabelFromBuffer | src/ui/interaction.rs:370-371 | an empty buffer becomes no label, any other buffer becomes that label |
| Interaction.NatToString | src/ui/interaction.rs:82 | the decimal rendering is non-empty and all digits |
| Interaction.NatToStringRoundTrip | src/ui/interaction.rs:82 | the decimal rendering of the node count reads back as the same number |
| Interaction.NewNodeName | src/ui/interaction.rs:82 | the new node's name is "Activité " followed by digits that read back as the node count plus one |
| Interaction.AppState.constructor | src/app.rs:40-51 | a fresh application has an empty diagram, the default UI state and no drag, and is valid |
| Interaction.AppState.HandleArrowSelection | src/ui/interaction.rs:149-216 | on a press with no drag and no creation: the first arrow hit is selected (node deselected) unless a connection point is within 3 × radius; a press on no arrow, point or node clears both selections; otherwise nothing changes |
| Interaction.AppState.HandleNodeDragAndSelect | src/ui/interaction.rs:91-146 | a press with no connection point within 3 × radius selects the first node containing it (arrow deselected) and arms the drag, unless a creation is pending; while down and dragging with no creation the selected node moves by the raw delta; a release ends the drag; arrows never change |
| Interaction.AppState.SelectPressedNode | src/ui/interaction.rs:95-130 | the press half: select the first node containing the press when no connection point is near and no creation is pending |
| Interaction.AppState.DragSelectedNode | src/ui/interaction.rs:133-145 | the drag half: only the selected node's rectangle moves, by the raw delta; a release ends the drag |
| Interaction.AppState.HandleArrowCreation | src/ui/interaction.rs:218-274 | a press near a connection point without a drag clears both selections and makes it the pending source; every release clears the pending source; a release adds exactly one arrow, of the table's type, only when a point within 4 × radius lies on a different existing node, and otherwise changes no arrow; nodes never change |
| Interaction.AppState.StartArrow | src/ui/interaction.rs:223-241 | the start half: a press within 3 × radius of a connection point while the canvas is not dragged starts a creation and clears both selections |
| Interaction.AppState.FinishArrow | src/ui/interaction.rs:243-273 | the release half: at most one arrow is added, to a different existing node within 4 × radius, and the pending source is cleared |
| Interaction.AppState.HandleRename | src/ui/interaction.rs:277-386 | node rename first, else arrow rename: a stale id only leaves rename mode; Enter writes the buffer to the node name or the arrow label (empty buffer → no label); Escape or focus loss changes nothing in the diagram; every close clears the id and the buffer; selections are untouched |
| Interaction.AppState.HandleDeletion | src/ui/interaction.rs:389-402 | Delete or Backspace removes the selected node with its arrows, or else the selected arrow; it clears that selection and both renaming ids and removes nothing else; without either key or a selection nothing changes |
| Interaction.AppState.ContextMenu | src/ui/interaction.rs:36-88 | with a node selected: rename (buffer seeded with its name) or delete; else with an arrow selected: edit its label (buffer seeded with the label or "") or delete; else add a node named "Activité n+1" under a fresh id at the click position |
| Interaction.AppState.HandlePointer | src/ui/interaction.rs:29-31 | the three pointer handlers in order: every release ends creation, and a plain press goes to a connection point, else a node (dragged), else an arrow, else clears the selection |
| Interaction.AppState.HandleCanvasInteractions | src/ui/interaction.rs:19-89 | records the hover position, runs the five handlers in order and then the menu; keeps the invariant; every release ends creation; a plain press with no key or menu click keeps the press priority |
| Interaction.ClosestIsLive | src/ui/drawing.rs:159-178 | a connection point found on a valid diagram names one of its nodes |
| Interaction.NodeAtIsLive | src/ui/interaction.rs:107-113 | a node hit on a valid diagram is one of its nodes |
| Interaction.ArrowAtIsLive | src/ui/interaction.rs:162-175 | an arrow hit on a valid diagram is one of its arrows |
| Generator.TypePlaceholder | src/generator.rs:78-83 | the placeholder reads back as the arrow type it was made from |
| Generator.TypePlaceholderInjective | src/generator.rs:78-83 | different arrow types get different placeholders |
| Generator.EntryOf | src/generator.rs:77-83 | an entry carries the arrow's label, or "data" when it has none, and the placeholder of its type |
| Generator.BucketOf | src/generator.rs:85-96 | inputs, controls or mechanisms exactly for an arrow targeting the node with that type; outputs exactly for an Output arrow sourced at the node and not targeting it; so an Output arrow into the node is dropped, a self-loop is classified by its target role, and only incident arrows are classified |
| Generator.Filed | src/generator.rs:76-97 | the entries filed in one bucket: at most one per arrow, each carrying the placeholder of the bucket's arrow type |
| Generator.FunctionContextOf | src/generator.rs:99-105 | the function context of a node carries that node's name |
| Generator.ModuleContextOf | src/generator.rs:70-111 | exactly one function context per node, in iteration order, each carrying that node's name |
| Generator.FiledMembers | src/generator.rs:76-97 | an entry is in a bucket exactly when some arrow is filed there and contributes it |
| Generator.BucketSizes | src/generator.rs:76-97 | the four buckets together hold exactly one entry per classified arrow, so no arrow is filed twice |
| Generator.ClassifiedAreTouching | src/generator.rs:76-97 | classified arrows are among the arrows touching the node, and there are no more of them |
| Generator.ClassifyArrows | src/generator.rs:71-105 | the inner loop pushing into four vectors builds exactly the node's function context |
| Generator.GenerateRustModuleContext | src/generator.rs:67-111 | the outer loop builds exactly the module context of the diagram's nodes and arrows |
| Generator.MarkdownNode | src/generator.rs:120-127 | the record of one node carries its id and name, and its corner and size rebuild the node's rectangle |
| Generator.MarkdownDoc | src/generator.rs:119-128 | one record per node, in iteration order, carrying that node's id, name, top-left corner, width and height |
| Generator.MarkdownOfNewNode | src/generator.rs:119-128 | a node fresh from `add_node` is documented at its anchor with size 120 × 60 |
| Generator.MarkdownListsEveryNodeOnce | src/generator.rs:119-128 | the Markdown records list each node of the diagram exactly once |

## Left out

- Painting (`draw_diagram`, `draw_node`, `draw_arrow`, `draw_arrow_head` in src/ui/drawing.rs): a rendering sink through egui's painter.
- egui's own drag detection on the canvas, which is allocated to sense clicks and drags (src/app.rs:266): `canvasDragged` changes only where the handlers set or clear it.
- egui plumbing: contexts, memory and drag ids, windows, focus requests, menu closing and logging. Pointer, key, focus and menu input are event parameters, and egui's drag flag is a field.
- The text editing inside the rename window is not modelled. Its effect is the buffer content `KeyInput.typed`.
- Persistence (RON files, dialogs, SVG export), the application shell, the error enum and the algorithm library: file I/O, foreign libraries and console output.
- Template loading and rendering in src/generator.rs. The model stops at the context handed to the template.
- The conversion of a node id to a string in the Markdown record: an id is kept as the id itself.
- f32 rounding, NaN and infinities: coordinates are exact reals.
- UUID randomness: ids come from a counter that is fresh for nodes and arrows alike.
- The `dragging_node` field of `UiState` is modelled but never set, as in the code.
- Interaction.DistanceSqToSegmentIsMinimum: the "no point of the segment is closer" half is stated only for a segment of non-zero squared length. For a zero-length segment it states only that the result is the squared distance to `a`. It does not derive that `a` and `b` then coincide, so it does not bound the distance to `b`.
- UiTransform: a zero zoom is excluded wherever the code divides by it; the code has no guard for it.
- Generator.ClassifyArrows: the inner classification loop of `generate_rust_module` is its own method, called once per node by the outer loop.
- Interaction.AppState.HandleNodeDragAndSelect and Interaction.AppState.HandleArrowCreation: each runs two halves that are separate methods (press then drag; start then finish), in the code's order.
