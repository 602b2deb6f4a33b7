/**
 The flight deck's store (createFlightDeckGraphStore in grm-flight-deck/src/graphStore.ts): one
 state value that every action replaces, after recomputing the fields derived from others, and
 the profiles it writes to storage. Status texts and the view switches are not modelled.
 */
module GraphStore {
  import opened Prelude
  import opened FilterSnapshot
  import P = Profiles

  datatype Kind = NodeKind | EdgeKind

  datatype Selection = Selection(kind: Kind, id: string)

  datatype ItemProps =
    | OwnProps(props: Props)
    | NodeModelProps(idField: string, fields: seq<string>)
    | EdgeModelProps(fromModel: string, toModel: string, edgeFields: seq<string>)

  datatype Item = Item(kind: Kind, id: string, caption: string, model: string, props: ItemProps)

  datatype Hint = Hint(model: string, caption: string)

  datatype Projection = Projection(nodeModels: seq<Hint>, edgeModels: seq<Hint>)

  datatype Event = Event(id: string, caption: string, resultState: string, workspace: Option<string>)

  datatype Normalized = Normalized(
    nodesById: map<string, Node>, edgesById: map<string, Edge>, nodeIds: seq<string>, edgeIds: seq<string>)

  datatype ConnectionStatus = Idle | Loading | Connected | Failed

  datatype GraphView = DataView | SchemaView

  datatype State = State(
    profiles: seq<P.Profile>,
    selectedProfileId: string,
    draftProfileName: string,
    settings: P.Settings,
    filter: Filter,
    snapshot: Option<Snapshot>,
    normalized: Option<Normalized>,
    visible: Option<Snapshot>,
    projection: Option<Projection>,
    selection: Option<Selection>,
    selectedItem: Option<Item>,
    connection: ConnectionStatus,
    events: seq<Event>,
    graphView: GraphView,
    schemaFilter: string,
    lastExecutedQuery: Option<string>)

  /** The host's string functions; NumberOf is the integer a text converts to, if it is one. */
  datatype World = World(text: Host, ids: P.Host, NumberOf: string -> Option<int>)

  const NO_FILTER := Filter("", "", "", "")
  const IDLE_EVENT := Event("idle", "event hook idle", "waiting", None)
  const EMPTY_SETTINGS := P.Settings("", "local-anonymous-dev", "", 5000, false)

  // ------------------------------------------------------------ derived fields

  function NodesById(nodes: seq<Node>): map<string, Node>
  {
    if nodes == [] then map[] else NodesById(nodes[..|nodes| - 1])[nodes[|nodes| - 1].id := nodes[|nodes| - 1]]
  }

  function EdgesById(edges: seq<Edge>): map<string, Edge>
  {
    if edges == [] then map[] else EdgesById(edges[..|edges| - 1])[edges[|edges| - 1].id := edges[|edges| - 1]]
  }

  function NodeIds(nodes: seq<Node>): (r: seq<string>)
    ensures |r| == |nodes| && forall i :: 0 <= i < |nodes| ==> r[i] == nodes[i].id
  {
    if nodes == [] then [] else NodeIds(nodes[..|nodes| - 1]) + [nodes[|nodes| - 1].id]
  }

  function EdgeIds(edges: seq<Edge>): (r: seq<string>)
    ensures |r| == |edges| && forall i :: 0 <= i < |edges| ==> r[i] == edges[i].id
  {
    if edges == [] then [] else EdgeIds(edges[..|edges| - 1]) + [edges[|edges| - 1].id]
  }

  function Normalize(s: Snapshot): Normalized
  {
    Normalized(NodesById(s.nodes), EdgesById(s.edges), NodeIds(s.nodes), EdgeIds(s.edges))
  }

  function ModelsNamed(names: seq<string>): (r: seq<NodeModel>)
    ensures |r| == |names| && forall i :: 0 <= i < |names| ==> r[i] == NodeModel(names[i], "id", [])
  {
    if names == [] then [] else ModelsNamed(names[..|names| - 1]) + [NodeModel(names[|names| - 1], "id", [])]
  }

  /** The node models listed, or else one without fields for each name. */
  function SchemaNodeModels(s: Snapshot): (r: seq<NodeModel>)
    ensures s.schemaNodeModels.Some? ==> r == s.schemaNodeModels.value
    ensures s.schemaNodeModels.None? ==> |r| == |s.nodeModels| && forall i :: 0 <= i < |r| ==> r[i] == NodeModel(s.nodeModels[i], "id", [])
  {
    if s.schemaNodeModels.Some? then s.schemaNodeModels.value else ModelsNamed(s.nodeModels)
  }

  function ModelsOfEdges(edges: seq<SchemaEdge>): (r: seq<EdgeModel>)
    ensures |r| == |edges|
    ensures forall i :: 0 <= i < |edges| ==> r[i] == EdgeModel(edges[i].model, edges[i].fromModel, edges[i].toModel, "id", [])
  {
    if edges == [] then []
    else [EdgeModel(edges[0].model, edges[0].fromModel, edges[0].toModel, "id", [])] + ModelsOfEdges(edges[1..])
  }

  /** The edge models listed, or else one without fields for each schema edge listed. */
  function SchemaEdgeModels(s: Snapshot): (r: seq<EdgeModel>)
    ensures s.schemaEdgeModels.Some? ==> r == s.schemaEdgeModels.value
    ensures s.schemaEdgeModels.None? && s.schemaEdges.None? ==> r == []
    ensures s.schemaEdgeModels.None? && s.schemaEdges.Some? ==>
              |r| == |s.schemaEdges.value|
              && forall i :: 0 <= i < |r| ==> IsEdgeModel(r[i], s.schemaEdges.value[i]) && r[i].idField == "id" && r[i].fields == []
  {
    if s.schemaEdgeModels.Some? then s.schemaEdgeModels.value
    else if s.schemaEdges.Some? then ModelsOfEdges(s.schemaEdges.value)
    else []
  }

  function EdgesOfModels(models: seq<EdgeModel>): (r: seq<SchemaEdge>)
    ensures |r| == |models|
    ensures forall i :: 0 <= i < |models| ==> r[i] == SchemaEdge(models[i].name, models[i].fromModel, models[i].toModel)
  {
    if models == [] then []
    else [SchemaEdge(models[0].name, models[0].fromModel, models[0].toModel)] + EdgesOfModels(models[1..])
  }

  predicate IsEdgeModel(m: EdgeModel, e: SchemaEdge)
  {
    m.name == e.model && m.fromModel == e.fromModel && m.toModel == e.toModel
  }

  /** The schema edges listed, or else one for each edge model. */
  function SchemaEdgesOf(s: Snapshot): (r: seq<SchemaEdge>)
    ensures s.schemaEdges.Some? ==> r == s.schemaEdges.value
    ensures s.schemaEdges.None? ==>
              |r| == |SchemaEdgeModels(s)| && forall i :: 0 <= i < |r| ==> IsEdgeModel(SchemaEdgeModels(s)[i], r[i])
  {
    if s.schemaEdges.Some? then s.schemaEdges.value else EdgesOfModels(SchemaEdgeModels(s))
  }

  /** The pieces of a text between its colons. */
  function Split(s: string): (r: seq<string>)
    ensures r != []
  {
    if s == [] then [""]
    else
      var rest := Split(s[1..]);
      if s[0] == ':' then [""] + rest else [[s[0]] + rest[0]] + rest[1..]
  }

  function FindEdge(edges: seq<SchemaEdge>, model: string): (r: Option<SchemaEdge>)
    ensures r.Some? ==> r.value in edges && r.value.model == model
    ensures r.None? ==> forall e :: e in edges ==> e.model != model
  {
    FindFirst(edges, (e: SchemaEdge) => e.model == model)
  }

  function SchemaEdgeFromSelection(w: World, s: Snapshot, id: string): Option<SchemaEdge>
  {
    var parts, edges := Split(id), SchemaEdgesOf(s);
    if |parts| < 2 then None
    else
      var index := if |parts| > 2 then w.NumberOf(parts[2]) else None;
      if index.Some? && 0 <= index.value < |edges| && edges[index.value].model == parts[1] then Some(edges[index.value])
      else FindEdge(edges, parts[1])
  }

  const NODE_PREFIX := "schema-node:"
  const EDGE_PREFIX := "schema-edge:"

  predicate Visible(w: World, sel: Selection, s: Snapshot)
  {
    match sel.kind
    case NodeKind =>
      if NODE_PREFIX <= sel.id then exists m :: m in SchemaNodeModels(s) && NODE_PREFIX + m.name == sel.id
      else exists n :: n in s.nodes && n.id == sel.id
    case EdgeKind =>
      if EDGE_PREFIX <= sel.id then SchemaEdgeFromSelection(w, s, sel.id).Some?
      else exists e :: e in s.edges && e.id == sel.id
  }

  function KeepIfVisible(w: World, sel: Option<Selection>, s: Option<Snapshot>): Option<Selection>
  {
    if sel.Some? && s.Some? && Visible(w, sel.value, s.value) then sel else None
  }

  function FindNode(nodes: seq<Node>, id: string): (r: Option<Node>)
    ensures r.Some? ==> r.value in nodes && r.value.id == id
    ensures r.None? ==> forall n :: n in nodes ==> n.id != id
  {
    FindFirst(nodes, (n: Node) => n.id == id)
  }

  function FindDataEdge(edges: seq<Edge>, id: string): (r: Option<Edge>)
    ensures r.Some? ==> r.value in edges && r.value.id == id
    ensures r.None? ==> forall e :: e in edges ==> e.id != id
  {
    FindFirst(edges, (e: Edge) => e.id == id)
  }

  function FindModel(models: seq<NodeModel>, name: string): (r: Option<NodeModel>)
    ensures r.Some? ==> r.value in models && r.value.name == name
    ensures r.None? ==> forall m :: m in models ==> m.name != name
  {
    FindFirst(models, (m: NodeModel) => m.name == name)
  }

  function FindEdgeModel(models: seq<EdgeModel>, e: SchemaEdge): Option<EdgeModel>
  {
    FindFirst(models, (m: EdgeModel) => m.name == e.model && m.fromModel == e.fromModel && m.toModel == e.toModel)
  }

  /** A field as the item shows it, with a mark if it is optional. */
  function FieldTexts(fields: seq<Field>): (r: seq<string>)
  {
    if fields == [] then []
    else [fields[0].name + (if fields[0].required then "" else "?") + ": " + fields[0].valueType] + FieldTexts(fields[1..])
  }

  function Caption(hints: seq<Hint>, model: string): string
  {
    var hint := FindFirst(hints, (h: Hint) => h.model == model);
    if hint.Some? then hint.value.caption else model
  }

  function SelectedItem(w: World, sel: Selection, s: Snapshot, projection: Option<Projection>): Option<Item>
  {
    var p := if projection.Some? then projection.value else Projection([], []);
    match sel.kind
    case NodeKind =>
      var name := if NODE_PREFIX <= sel.id then sel.id[|NODE_PREFIX|..] else "";
      if name != "" then
        var model := FindModel(SchemaNodeModels(s), name);
        if model.None? then None
        else Some(Item(NodeKind, sel.id, Caption(p.nodeModels, name), name, NodeModelProps(model.value.idField, FieldTexts(model.value.fields))))
      else
        var node := FindNode(s.nodes, sel.id);
        if node.None? then None
        else Some(Item(NodeKind, node.value.id, node.value.caption, node.value.model, OwnProps(node.value.props)))
    case EdgeKind =>
      var edge := if EDGE_PREFIX <= sel.id then SchemaEdgeFromSelection(w, s, sel.id) else None;
      if edge.Some? then
        var model := FindEdgeModel(SchemaEdgeModels(s), edge.value);
        Some(Item(EdgeKind, sel.id, Caption(p.edgeModels, edge.value.model), edge.value.model,
                  EdgeModelProps(edge.value.fromModel, edge.value.toModel, if model.Some? then FieldTexts(model.value.fields) else [])))
      else
        var e := FindDataEdge(s.edges, sel.id);
        if e.None? then None
        else Some(Item(EdgeKind, e.value.id, e.value.model, e.value.model, OwnProps(e.value.props)))
  }

  function EventsForSnapshot(s: Snapshot, visible: Option<Snapshot>): (r: seq<Event>)
    ensures |r| == 2 && r[0].id == "snapshot-read" && r[1].id == "filter-boundary"
  {
    var shown := if visible.Some? then visible.value else s;
    [Event("snapshot-read", Dec(|s.nodes|) + " nodes observed",
           if s.partialReason.Some? then s.partialReason.value else "snapshot loaded", Some(s.workspace)),
     Event("filter-boundary", Dec(|shown.edges|) + " edges visible", Dec(|shown.nodes|) + " visible nodes", Some(s.workspace))]
  }

  predicate Ordinary(e: Event)
  {
    e.id != "idle" && e.id != "snapshot-read" && e.id != "filter-boundary"
  }

  /** The source's deriveState. */
  function Derive(w: World, s: State): State
  {
    var visible := if s.snapshot.Some? then Some(Filtered(w.text, s.snapshot.value, s.filter)) else None;
    var selection := KeepIfVisible(w, s.selection, visible);
    s.(visible := visible,
       normalized := if s.snapshot.Some? then Some(Normalize(s.snapshot.value)) else None,
       selection := selection,
       selectedItem := if selection.Some? then SelectedItem(w, selection.value, visible.value, s.projection) else None,
       events := if s.snapshot.Some? then EventsForSnapshot(s.snapshot.value, visible) + Keep(s.events, Ordinary) else s.events)
  }

  // ------------------------------------------------------------------- actions

  datatype Action =
    | UpdateSettings(merged: P.Settings)
    | UpdateDraftProfileName(name: string)
    | SaveCurrentProfile
    | CreateProfile
    | RemoveCurrentProfile
    | Disconnect
    | SelectProfile(profileId: string)
    | ApplyGraphFilter(filter: Filter)
    | ClearGraphFilter
    | BeginSnapshotLoad
    | LoadSnapshot(snapshot: Snapshot)
    | LoadVisualProjection(projection: Option<Projection>)
    | MarkConnectionFailed
    | SelectGraphItem(selection: Option<Selection>)
    | SelectWorkspacePanel
    | SetGraphView(view: GraphView)
    | SetSchemaFilter(text: string)
    | RejectQueryCommand
    | ApplyQueryResponse(result: Snapshot, partialReason: Option<string>, now: nat, event: Event)
    | RecordQueryExecution(recordedAt: nat, recorded: Event)
    | ApplyExecutionEvent(applied: Event)
    | ClearWorkspace
    | SwitchView

  function Disconnected(s: State): State
  {
    s.(snapshot := None, normalized := None, visible := None, projection := None, selection := None, selectedItem := None,
       connection := Idle, filter := NO_FILTER, schemaFilter := "", lastExecutedQuery := None, events := [IDLE_EVENT])
  }

  /** The id of what happens at this millisecond. */
  function QueryId(now: nat): (id: string)
    ensures |id| > 6 && id[..6] == "query-" && id[6..] == Dec(now)
  {
    "query-" + Dec(now)
  }

  function WithoutIdle(events: seq<Event>): seq<Event>
  {
    Keep(events, (e: Event) => e.id != "idle")
  }

  function Replaced(ps: seq<P.Profile>, p: P.Profile): (r: seq<P.Profile>)
    ensures |r| == |ps| && forall i :: 0 <= i < |ps| ==> r[i] == if ps[i].id == p.id then p else ps[i]
  {
    if ps == [] then []
    else Replaced(ps[..|ps| - 1], p) + [if ps[|ps| - 1].id == p.id then p else ps[|ps| - 1]]
  }

  /** What the draft name is saved as. */
  function SavedNameOf(w: World, draft: string): string
  {
    if w.ids.Trim(draft) != "" then w.ids.Trim(draft) else "Local workspace"
  }

  function SavedProfile(w: World, s: State): P.Profile
  {
    P.Sanitize(w.ids, P.Profile(
      s.selectedProfileId,
      SavedNameOf(w, s.draftProfileName),
      s.settings))
  }

  function NewProfile(w: World, s: State): P.Profile
  {
    P.Sanitize(w.ids, P.Profile(P.UniqueProfileId(w.ids, "New profile", ProfileIds(s.profiles)), "New profile", EMPTY_SETTINGS))
  }

  function Others(ps: seq<P.Profile>, id: string): seq<P.Profile>
  {
    Keep(ps, (p: P.Profile) => p.id != id)
  }

  function ProfileIds(ps: seq<P.Profile>): set<string>
  {
    set p | p in ps :: p.id
  }

  /** The actions that return without touching the state. */
  predicate Ignored(s: State, a: Action)
  {
    match a
    case SaveCurrentProfile => forall p :: p in s.profiles ==> p.id != s.selectedProfileId
    case RemoveCurrentProfile => s.selectedProfileId == ""
    case SelectProfile(id) => P.Find(s.profiles, id).None?
    case RecordQueryExecution(_, _) => s.snapshot.None?
    case _ => false
  }

  /** The state an action hands to setState. */
  function Handed(w: World, s: State, a: Action): State
    requires !Ignored(s, a)
  {
    match a
    case UpdateSettings(merged) => s.(settings := w.ids.Clean(merged))
    case UpdateDraftProfileName(name) => s.(draftProfileName := name)
    case SaveCurrentProfile =>
      var p := SavedProfile(w, s);
      s.(profiles := Replaced(s.profiles, p), selectedProfileId := p.id, draftProfileName := p.name, settings := p.settings)
    case CreateProfile =>
      var p := NewProfile(w, s);
      Disconnected(s).(profiles := s.profiles + [p], selectedProfileId := p.id, draftProfileName := "", settings := p.settings)
    case RemoveCurrentProfile =>
      Disconnected(s).(profiles := Others(s.profiles, s.selectedProfileId),
                       selectedProfileId := "", draftProfileName := "", settings := EMPTY_SETTINGS)
    case Disconnect => Disconnected(s)
    case SelectProfile(id) =>
      var p := P.Find(s.profiles, id).value;
      Disconnected(s).(selectedProfileId := p.id, draftProfileName := p.name, settings := p.settings)
    case ApplyGraphFilter(filter) => s.(filter := filter, lastExecutedQuery := None)
    case ClearGraphFilter => s.(filter := NO_FILTER, lastExecutedQuery := None)
    case BeginSnapshotLoad => s.(connection := Loading, selection := None)
    case LoadSnapshot(snapshot) =>
      s.(snapshot := Some(snapshot), normalized := Some(Normalize(snapshot)), connection := Connected,
         lastExecutedQuery := None, events := EventsForSnapshot(snapshot, s.visible))
    case LoadVisualProjection(projection) => s.(projection := projection)
    case MarkConnectionFailed =>
      s.(snapshot := None, normalized := None, visible := None, projection := None, selection := None, selectedItem := None,
         connection := Failed, lastExecutedQuery := None, events := [IDLE_EVENT])
    case SelectGraphItem(selection) => s.(selection := selection)
    case SelectWorkspacePanel => s.(selection := None)
    case SetGraphView(view) => s.(graphView := view, selection := None, lastExecutedQuery := None)
    case SetSchemaFilter(text) => s.(schemaFilter := text, lastExecutedQuery := None)
    case RejectQueryCommand => s.(lastExecutedQuery := None)
    case ApplyQueryResponse(result, partialReason, now, event) =>
      var snapshot := result.(partialReason := if partialReason.Some? then partialReason else result.partialReason);
      s.(snapshot := Some(snapshot), normalized := Some(Normalize(snapshot)), filter := NO_FILTER, selection := None,
         lastExecutedQuery := Some(QueryId(now)), events := WithoutIdle(s.events) + [event.(id := QueryId(now))])
    case RecordQueryExecution(now, event) =>
      s.(lastExecutedQuery := Some(QueryId(now)), events := WithoutIdle(s.events) + [event.(id := QueryId(now))])
    case ApplyExecutionEvent(event) => s.(events := WithoutIdle(s.events) + [event])
    case ClearWorkspace =>
      s.(snapshot := None, normalized := None, visible := None, projection := None, selection := None, selectedItem := None,
         lastExecutedQuery := None, events := [IDLE_EVENT])
    case SwitchView => s
  }

  function Step(w: World, s: State, a: Action): State
  {
    if Ignored(s, a) then s else Derive(w, Handed(w, s, a))
  }

  function Run(w: World, s: State, actions: seq<Action>): State
  {
    if actions == [] then s else Step(w, Run(w, s, actions[..|actions| - 1]), actions[|actions| - 1])
  }

  function Initial(w: World, stored: P.Stored, legacy: P.Settings): State
  {
    var r := P.Restore(w.ids, stored, legacy);
    Derive(w, State(
      r.profiles,
      if r.selected.Some? then r.selected.value.id else "",
      if r.selected.Some? then r.selected.value.name else "",
      if r.selected.Some? then r.selected.value.settings else EMPTY_SETTINGS,
      NO_FILTER, None, None, None, None, None, None, Idle, [IDLE_EVENT], DataView, "", None))
  }

  // ----------------------------------------------------------------- agreement

  /** The selection names the model whose name is empty, and no node bears that id: nothing to show. */
  predicate Unshowable(sel: Selection, s: Snapshot)
  {
    sel.kind.NodeKind? && sel.id == NODE_PREFIX && forall n :: n in s.nodes ==> n.id != sel.id
  }

  /** The item shows this data node: the first listed with the id. */
  ghost predicate ShowsNode(s: Snapshot, id: string, item: Item)
  {
    exists i :: 0 <= i < |s.nodes| && s.nodes[i].id == id && (forall j :: 0 <= j < i ==> s.nodes[j].id != id)
                && item.caption == s.nodes[i].caption && item.model == s.nodes[i].model && item.props == OwnProps(s.nodes[i].props)
  }

  ghost predicate ShowsDataEdge(s: Snapshot, id: string, item: Item)
  {
    exists i :: 0 <= i < |s.edges| && s.edges[i].id == id && (forall j :: 0 <= j < i ==> s.edges[j].id != id)
                && item.caption == s.edges[i].model && item.model == s.edges[i].model && item.props == OwnProps(s.edges[i].props)
  }

  /** A model's caption is that of the first hint for it, or else its name. */
  ghost predicate Captioned(hints: seq<Hint>, model: string, caption: string)
  {
    if exists h :: h in hints && h.model == model then
      exists i :: 0 <= i < |hints| && hints[i].model == model && (forall j :: 0 <= j < i ==> hints[j].model != model)
                  && caption == hints[i].caption
    else caption == model
  }

  ghost predicate FieldsShown(fields: seq<Field>, shown: seq<string>)
  {
    && |shown| == |fields|
    && forall i :: 0 <= i < |fields| ==>
         shown[i] == if fields[i].required then fields[i].name + ": " + fields[i].valueType else fields[i].name + "?: " + fields[i].valueType
  }

  /** The item shows the node model of this name: the first listed. */
  ghost predicate ShowsNodeModel(s: Snapshot, hints: seq<Hint>, name: string, item: Item)
  {
    && item.model == name && Captioned(hints, name, item.caption) && item.props.NodeModelProps?
    && var models := SchemaNodeModels(s);
       exists i :: 0 <= i < |models| && models[i].name == name && (forall j :: 0 <= j < i ==> models[j].name != name)
                   && item.props.idField == models[i].idField && FieldsShown(models[i].fields, item.props.fields)
  }

  /** The item shows this schema edge, with the fields of the first model of its name and ends, if there is one. */
  ghost predicate ShowsSchemaEdge(s: Snapshot, hints: seq<Hint>, e: SchemaEdge, item: Item)
  {
    && item.model == e.model && Captioned(hints, e.model, item.caption) && item.props.EdgeModelProps?
    && item.props.fromModel == e.fromModel && item.props.toModel == e.toModel
    && var models := SchemaEdgeModels(s);
       if exists m :: m in models && IsEdgeModel(m, e) then
         exists i :: 0 <= i < |models| && IsEdgeModel(models[i], e) && (forall j :: 0 <= j < i ==> !IsEdgeModel(models[j], e))
                     && FieldsShown(models[i].fields, item.props.edgeFields)
       else item.props.edgeFields == []
  }

  /** What the item of a selection shows, by the kind of thing selected. */
  ghost predicate Shows(w: World, sel: Selection, s: Snapshot, projection: Option<Projection>, item: Item)
  {
    var p := if projection.Some? then projection.value else Projection([], []);
    && item.kind == sel.kind && item.id == sel.id
    && match sel.kind
       case NodeKind =>
         if NODE_PREFIX < sel.id then ShowsNodeModel(s, p.nodeModels, sel.id[|NODE_PREFIX|..], item)
         else ShowsNode(s, sel.id, item)
       case EdgeKind =>
         if EDGE_PREFIX <= sel.id && SchemaEdgeFromSelection(w, s, sel.id).Some?
         then ShowsSchemaEdge(s, p.edgeModels, SchemaEdgeFromSelection(w, s, sel.id).value, item)
         else ShowsDataEdge(s, sel.id, item)
  }

  /** The derived fields agree with the fields they derive from. */
  ghost predicate Agrees(w: World, s: State)
  {
    && (s.snapshot.None? ==> s.visible.None? && s.normalized.None? && s.selection.None?)
    && (s.snapshot.Some? ==>
          && s.visible == Some(Filtered(w.text, s.snapshot.value, s.filter))
          && s.normalized == Some(Normalize(s.snapshot.value))
          && (s.selection.Some? ==> Visible(w, s.selection.value, s.visible.value)))
    && (s.selectedItem.Some? ==> s.selection.Some? && s.visible.Some?
                                 && Shows(w, s.selection.value, s.visible.value, s.projection, s.selectedItem.value))
    && (s.selection.Some? && s.visible.Some? ==> (s.selectedItem.None? <==> Unshowable(s.selection.value, s.visible.value)))
    && (s.snapshot.Some? ==> BoundariesFirst(s.events, s.snapshot.value, s.visible))
  }

  /** There is an item exactly for a showable selection, and it shows what is selected. */
  ghost predicate ItemOfSelection(w: World, s: State)
  {
    && (s.selection.None? ==> s.selectedItem.None?)
    && (s.selection.Some? ==>
          && s.visible.Some? && (s.selectedItem.None? <==> Unshowable(s.selection.value, s.visible.value))
          && (s.selectedItem.Some? ==> Shows(w, s.selection.value, s.visible.value, s.projection, s.selectedItem.value)))
  }

  /** The two boundary events of the current snapshot come first, each once, and no idle event is left. */
  ghost predicate BoundariesFirst(events: seq<Event>, s: Snapshot, visible: Option<Snapshot>)
  {
    && |events| >= 2
    && events[0] == Event("snapshot-read", Dec(|s.nodes|) + " nodes observed",
                          if s.partialReason.Some? then s.partialReason.value else "snapshot loaded", Some(s.workspace))
    && (visible.Some? ==>
          events[1] == Event("filter-boundary", Dec(|visible.value.edges|) + " edges visible",
                             Dec(|visible.value.nodes|) + " visible nodes", Some(s.workspace)))
    && forall i :: 2 <= i < |events| ==> Ordinary(events[i])
  }

  /** The place among the schema edges that the third part of the id names, if it has the model that the second part names. */
  predicate PlaceNamed(w: World, edges: seq<SchemaEdge>, parts: seq<string>, i: nat)
  {
    |parts| > 2 && w.NumberOf(parts[2]) == Some(i) && i < |edges| && edges[i].model == parts[1]
  }

  /**
   A schema edge is found exactly when some schema edge has the model named in the id: the one at
   the place the id names if that has the model, or else the first that does.
   */
  lemma SchemaEdgeFoundExactly(w: World, s: Snapshot, id: string)
    requires |Split(id)| >= 2
    ensures var parts, edges, r := Split(id), SchemaEdgesOf(s), SchemaEdgeFromSelection(w, s, id);
            && (r.None? <==> forall e :: e in edges ==> e.model != parts[1])
            && (forall i: nat :: PlaceNamed(w, edges, parts, i) ==> r == Some(edges[i]))
            && (r.Some? && (forall i: nat :: !PlaceNamed(w, edges, parts, i)) ==>
                  exists i :: 0 <= i < |edges| && edges[i].model == parts[1] && r == Some(edges[i])
                              && forall j :: 0 <= j < i ==> edges[j].model != parts[1])
  {
    var parts, edges := Split(id), SchemaEdgesOf(s);
    hide Split, SchemaEdgesOf;
    FirstEdge(edges, parts[1]);
    if forall i: nat :: !PlaceNamed(w, edges, parts, i) {
      if |parts| > 2 && w.NumberOf(parts[2]).Some? && 0 <= w.NumberOf(parts[2]).value {
        var n: nat := w.NumberOf(parts[2]).value;
        assert !PlaceNamed(w, edges, parts, n);
      }
    }
  }

  lemma FirstEdge(edges: seq<SchemaEdge>, model: string)
    ensures FindEdge(edges, model).Some? ==>
              exists i :: 0 <= i < |edges| && edges[i].model == model && FindEdge(edges, model) == Some(edges[i])
                          && forall j :: 0 <= j < i ==> edges[j].model != model
  {
    FindFirstExactly(edges, (e: SchemaEdge) => e.model == model);
  }

  lemma FirstNode(nodes: seq<Node>, id: string)
    ensures FindNode(nodes, id).Some? ==>
              exists i :: 0 <= i < |nodes| && nodes[i].id == id && FindNode(nodes, id) == Some(nodes[i])
                          && forall j :: 0 <= j < i ==> nodes[j].id != id
  {
    FindFirstExactly(nodes, (n: Node) => n.id == id);
  }

  lemma FirstDataEdge(edges: seq<Edge>, id: string)
    ensures FindDataEdge(edges, id).Some? ==>
              exists i :: 0 <= i < |edges| && edges[i].id == id && FindDataEdge(edges, id) == Some(edges[i])
                          && forall j :: 0 <= j < i ==> edges[j].id != id
  {
    FindFirstExactly(edges, (e: Edge) => e.id == id);
  }

  lemma FirstModel(models: seq<NodeModel>, name: string)
    ensures FindModel(models, name).Some? ==>
              exists i :: 0 <= i < |models| && models[i].name == name && FindModel(models, name) == Some(models[i])
                          && forall j :: 0 <= j < i ==> models[j].name != name
  {
    FindFirstExactly(models, (m: NodeModel) => m.name == name);
  }

  lemma FirstEdgeModel(models: seq<EdgeModel>, e: SchemaEdge)
    ensures FindEdgeModel(models, e).None? <==> forall m :: m in models ==> !IsEdgeModel(m, e)
    ensures FindEdgeModel(models, e).Some? ==>
              exists i :: 0 <= i < |models| && IsEdgeModel(models[i], e) && FindEdgeModel(models, e) == Some(models[i])
                          && forall j :: 0 <= j < i ==> !IsEdgeModel(models[j], e)
  {
    FindFirstExactly(models, (m: EdgeModel) => m.name == e.model && m.fromModel == e.fromModel && m.toModel == e.toModel);
  }

  lemma CaptionExactly(hints: seq<Hint>, model: string)
    ensures Captioned(hints, model, Caption(hints, model))
  {
    FindFirstExactly(hints, (h: Hint) => h.model == model);
  }

  lemma {:induction false} FieldTextsExactly(fields: seq<Field>)
    ensures FieldsShown(fields, FieldTexts(fields))
  {
    if fields != [] {
      FieldTextsExactly(fields[1..]);
    }
  }

  /** The item of a selection shows what is selected. */
  lemma ItemShows(w: World, sel: Selection, s: Snapshot, projection: Option<Projection>)
    ensures SelectedItem(w, sel, s, projection).Some? ==> Shows(w, sel, s, projection, SelectedItem(w, sel, s, projection).value)
  {
    var p := if projection.Some? then projection.value else Projection([], []);
    hide SchemaEdgeFromSelection, SchemaNodeModels, SchemaEdgeModels, Caption, FindEdgeModel, FindNode, FindModel, FindDataEdge,
         Captioned, FieldsShown, FieldTexts, IsEdgeModel;
    if sel.kind.NodeKind? && NODE_PREFIX < sel.id {
      var name := sel.id[|NODE_PREFIX|..];
      FirstModel(SchemaNodeModels(s), name);
      CaptionExactly(p.nodeModels, name);
      var model := FindModel(SchemaNodeModels(s), name);
      if model.Some? {
        FieldTextsExactly(model.value.fields);
      }
    } else if sel.kind.NodeKind? {
      FirstNode(s.nodes, sel.id);
    } else if EDGE_PREFIX <= sel.id && SchemaEdgeFromSelection(w, s, sel.id).Some? {
      var e := SchemaEdgeFromSelection(w, s, sel.id).value;
      FirstEdgeModel(SchemaEdgeModels(s), e);
      CaptionExactly(p.edgeModels, e.model);
      var model := FindEdgeModel(SchemaEdgeModels(s), e);
      if model.Some? {
        FieldTextsExactly(model.value.fields);
      }
    } else {
      FirstDataEdge(s.edges, sel.id);
    }
  }

  /** What can be selected: what the snapshot lists under the id, as a schema model if the id says so. */
  lemma SelectableExactly(w: World, sel: Selection, s: Snapshot)
    ensures sel.kind.NodeKind? && NODE_PREFIX <= sel.id ==>
              (Visible(w, sel, s) <==> exists i :: 0 <= i < |SchemaNodeModels(s)| && SchemaNodeModels(s)[i].name == sel.id[|NODE_PREFIX|..])
    ensures sel.kind.NodeKind? && !(NODE_PREFIX <= sel.id) ==>
              (Visible(w, sel, s) <==> exists i :: 0 <= i < |s.nodes| && s.nodes[i].id == sel.id)
    ensures sel.kind.EdgeKind? && EDGE_PREFIX <= sel.id ==>
              |Split(sel.id)| >= 2
              && (Visible(w, sel, s) <==> exists i :: 0 <= i < |SchemaEdgesOf(s)| && SchemaEdgesOf(s)[i].model == Split(sel.id)[1])
    ensures sel.kind.EdgeKind? && !(EDGE_PREFIX <= sel.id) ==>
              (Visible(w, sel, s) <==> exists i :: 0 <= i < |s.edges| && s.edges[i].id == sel.id)
  {
    hide SchemaEdgeFromSelection, SchemaEdgesOf, SchemaNodeModels, Split;
    if sel.kind.NodeKind? && NODE_PREFIX <= sel.id {
      var name := sel.id[|NODE_PREFIX|..];
      assert sel.id == NODE_PREFIX + name;
      if m :| m in SchemaNodeModels(s) && NODE_PREFIX + m.name == sel.id {
        assert sel.id[|NODE_PREFIX|..] == m.name;
        var i :| 0 <= i < |SchemaNodeModels(s)| && SchemaNodeModels(s)[i] == m;
      }
    } else if sel.kind.EdgeKind? && EDGE_PREFIX <= sel.id {
      var rest := sel.id[|EDGE_PREFIX|..];
      assert sel.id == "schema-edge" + ":" + rest;
      SplitAt("schema-edge", rest);
      SchemaEdgeFoundExactly(w, s, sel.id);
      assert |Split(rest)| > 0;
    }
  }

  /** A visible selection has an item, unless it names the empty model name alone. */
  lemma VisibleHasItem(w: World, sel: Selection, s: Snapshot, projection: Option<Projection>)
    requires Visible(w, sel, s)
    ensures SelectedItem(w, sel, s, projection).None? <==> Unshowable(sel, s)
  {
    hide SchemaEdgeFromSelection, SchemaNodeModels, SchemaEdgeModels, Caption, FindEdgeModel;
    if sel.kind.NodeKind? && NODE_PREFIX <= sel.id {
      var m :| m in SchemaNodeModels(s) && NODE_PREFIX + m.name == sel.id;
      assert sel.id[|NODE_PREFIX|..] == m.name;
    }
  }

  lemma DeriveAgrees(w: World, s: State)
    ensures Agrees(w, Derive(w, s))
  {
    var d := Derive(w, s);
    KeepExact(s.events, Ordinary);
    hide Visible, SelectedItem, Filtered, Normalize, Keep, EventsForSnapshot;
    if d.selection.Some? {
      VisibleHasItem(w, d.selection.value, d.visible.value, s.projection);
      ItemShows(w, d.selection.value, d.visible.value, s.projection);
    }
    hide Shows;
    if s.snapshot.Some? {
      BoundaryEvents(s.snapshot.value, d.visible);
      forall i | 2 <= i < |d.events|
        ensures Ordinary(d.events[i])
      {
        assert d.events[i] == Keep(s.events, Ordinary)[i - 2];
      }
    }
  }

  lemma BoundaryEvents(s: Snapshot, visible: Option<Snapshot>)
    requires visible.Some?
    ensures var events := EventsForSnapshot(s, visible);
            && events[0] == Event("snapshot-read", Dec(|s.nodes|) + " nodes observed",
                                  if s.partialReason.Some? then s.partialReason.value else "snapshot loaded", Some(s.workspace))
            && events[1] == Event("filter-boundary", Dec(|visible.value.edges|) + " edges visible",
                                  Dec(|visible.value.nodes|) + " visible nodes", Some(s.workspace))
  {
    hide Dec;
  }

  /** Recomputing the derived fields changes nothing. */
  lemma DeriveIdempotent(w: World, s: State)
    ensures Derive(w, Derive(w, s)) == Derive(w, s)
  {
    var d := Derive(w, s);
    if s.snapshot.Some? {
      var kept := Keep(s.events, Ordinary);
      var first := EventsForSnapshot(s.snapshot.value, d.visible);
      KeepNarrower(s.events, Ordinary, Ordinary);
      KeepDropsFront(first[0], first[1], kept);
      assert first == [first[0], first[1]];
    }
    hide Visible, SelectedItem, Filtered, Normalize, Keep, EventsForSnapshot;
  }

  lemma {:induction false} KeepDropsFront(a: Event, b: Event, rest: seq<Event>)
    requires !Ordinary(a) && !Ordinary(b)
    ensures Keep([a, b] + rest, Ordinary) == Keep(rest, Ordinary)
  {
    if rest == [] {
      assert [a, b] + rest == [a, b];
      assert [a, b][..1] == [a];
      assert Keep([a], Ordinary) == [];
    } else {
      KeepDropsFront(a, b, rest[..|rest| - 1]);
      assert ([a, b] + rest)[..|rest| + 1] == [a, b] + rest[..|rest| - 1];
    }
  }

  // ------------------------------------------------------------ every reachable state

  ghost predicate ProfilesOk(w: World, s: State)
  {
    P.WellFormed(w.ids, s.profiles, s.selectedProfileId)
  }

  /** What holds of every reachable state. */
  ghost predicate Inv(w: World, s: State)
  {
    Agrees(w, s) && Derive(w, s) == s && ProfilesOk(w, s)
  }

  lemma DeriveKeepsProfiles(w: World, s: State)
    ensures Derive(w, s).profiles == s.profiles && Derive(w, s).selectedProfileId == s.selectedProfileId
  {
  }

  /** The profile saved in place keeps its id. */
  lemma SavedKeepsId(w: World, s: State)
    requires P.HostLaws(w.ids) && ProfilesOk(w, s) && !Ignored(s, SaveCurrentProfile)
    ensures var p := SavedProfile(w, s);
            p.id == s.selectedProfileId && P.Good(w.ids, p)
  {
    var p :| p in s.profiles && p.id == s.selectedProfileId;
    P.SlugIsStable(w.ids, s.selectedProfileId);
  }

  lemma SaveKeepsProfiles(w: World, s: State)
    requires P.HostLaws(w.ids) && ProfilesOk(w, s) && !Ignored(s, SaveCurrentProfile)
    ensures ProfilesOk(w, Handed(w, s, SaveCurrentProfile))
  {
    SavedKeepsId(w, s);
    hide SavedProfile, P.Good, P.HostLaws, P.WellFormed, Replaced;
    ReplacedProfile(w, s.profiles, SavedProfile(w, s));
  }

  lemma ReplacedProfile(w: World, ps: seq<P.Profile>, p: P.Profile)
    requires P.WellFormed(w.ids, ps, p.id) && P.Good(w.ids, p)
    ensures P.WellFormed(w.ids, Replaced(ps, p), p.id)
  {
    hide P.Good, Replaced;
    var qs := Replaced(ps, p);
    forall q | q in qs
      ensures P.Good(w.ids, q)
    {
      var i :| 0 <= i < |qs| && qs[i] == q;
      assert ps[i] in ps;
    }
    assert forall i :: 0 <= i < |qs| ==> qs[i].id == ps[i].id;
    if p.id != "" {
      var q :| q in ps && q.id == p.id;
      var i :| 0 <= i < |ps| && ps[i] == q;
      assert qs[i] in qs;
    }
  }

  /** The profile created has an unused id, which sanitizing leaves alone. */
  lemma NewIsGood(w: World, s: State)
    requires P.HostLaws(w.ids)
    ensures P.Good(w.ids, NewProfile(w, s)) && NewProfile(w, s).id !in ProfileIds(s.profiles)
    ensures NewProfile(w, s).id == P.UniqueProfileId(w.ids, "New profile", ProfileIds(s.profiles))
  {
    hide P.UniqueProfileId, P.StableProfileId, P.IsSlug;
    P.UniqueIsStable(w.ids, "New profile", ProfileIds(s.profiles));
    var id := P.UniqueProfileId(w.ids, "New profile", ProfileIds(s.profiles));
    P.SlugIsStable(w.ids, id);
    P.EmptyNoSlug();
  }

  lemma CreateKeepsProfiles(w: World, s: State)
    requires P.HostLaws(w.ids) && ProfilesOk(w, s)
    ensures ProfilesOk(w, Handed(w, s, CreateProfile))
  {
    hide NewProfile, P.Good, P.HostLaws, P.WellFormed, Handed;
    NewIsGood(w, s);
    HandedCreate(w, s);
    AddedProfile(w, s.profiles, s.selectedProfileId, NewProfile(w, s));
  }

  lemma HandedCreate(w: World, s: State)
    ensures Handed(w, s, CreateProfile).profiles == s.profiles + [NewProfile(w, s)]
    ensures Handed(w, s, CreateProfile).selectedProfileId == NewProfile(w, s).id
  {
    hide NewProfile, Keep, Normalize, EventsForSnapshot, SavedProfile, Replaced;
  }

  lemma AddedProfile(w: World, ps: seq<P.Profile>, selectedProfileId: string, p: P.Profile)
    requires P.WellFormed(w.ids, ps, selectedProfileId)
    requires P.Good(w.ids, p) && p.id !in ProfileIds(ps)
    ensures P.WellFormed(w.ids, ps + [p], p.id)
  {
    hide P.Good;
    forall i | 0 <= i < |ps|
      ensures ps[i].id != p.id
    {
      assert ps[i] in ps;
    }
    assert p in ps + [p];
  }

  lemma {:induction false} KeptDistinct(ps: seq<P.Profile>, keep: P.Profile -> bool)
    requires P.DistinctIds(ps)
    ensures P.DistinctIds(Keep(ps, keep))
  {
    if ps != [] {
      var init, last := ps[..|ps| - 1], ps[|ps| - 1];
      KeptDistinct(init, keep);
      KeepExact(init, keep);
      forall p | p in Keep(init, keep)
        ensures p.id != last.id
      {
        var j :| 0 <= j < |init| && init[j] == p;
        assert ps[j].id != ps[|ps| - 1].id;
      }
      hide Keep;
      assert forall i :: 0 <= i < |Keep(init, keep)| ==> Keep(init, keep)[i] in Keep(init, keep);
      LastKept(ps, keep);
    }
  }

  lemma LastKept(ps: seq<P.Profile>, keep: P.Profile -> bool)
    requires ps != []
    ensures Keep(ps, keep) == Keep(ps[..|ps| - 1], keep) + (if keep(ps[|ps| - 1]) then [ps[|ps| - 1]] else [])
  {
  }

  lemma OthersKept(w: World, ps: seq<P.Profile>, selectedProfileId: string)
    requires P.WellFormed(w.ids, ps, selectedProfileId)
    ensures P.WellFormed(w.ids, Others(ps, selectedProfileId), "")
  {
    KeptDistinct(ps, (p: P.Profile) => p.id != selectedProfileId);
    KeepExact(ps, (p: P.Profile) => p.id != selectedProfileId);
    hide Keep, P.Good;
  }

  lemma RemoveKeepsProfiles(w: World, s: State)
    requires ProfilesOk(w, s) && !Ignored(s, RemoveCurrentProfile)
    ensures ProfilesOk(w, Handed(w, s, RemoveCurrentProfile))
  {
    hide Others, P.WellFormed;
    OthersKept(w, s.profiles, s.selectedProfileId);
  }

  lemma HandedKeepsProfiles(w: World, s: State, a: Action)
    requires P.HostLaws(w.ids) && ProfilesOk(w, s) && !Ignored(s, a)
    ensures ProfilesOk(w, Handed(w, s, a))
  {
    hide P.HostLaws, P.IsSlug;
    if a.SaveCurrentProfile? {
      SaveKeepsProfiles(w, s);
    } else if a.CreateProfile? {
      CreateKeepsProfiles(w, s);
    } else if a.RemoveCurrentProfile? {
      RemoveKeepsProfiles(w, s);
    } else {
      hide SavedProfile, NewProfile, Keep, Normalize, EventsForSnapshot, WithoutIdle, P.UniqueProfileId;
    }
  }

  lemma StepKeepsInv(w: World, s: State, a: Action)
    requires P.HostLaws(w.ids) && Inv(w, s)
    ensures Inv(w, Step(w, s, a))
  {
    hide P.HostLaws, Agrees, Derive, Handed, ProfilesOk, P.WellFormed;
    if !Ignored(s, a) {
      var next := Handed(w, s, a);
      HandedKeepsProfiles(w, s, a);
      DeriveAgrees(w, next);
      DeriveIdempotent(w, next);
      SameProfiles(w, next);
    }
  }

  lemma SameProfiles(w: World, s: State)
    requires ProfilesOk(w, s)
    ensures ProfilesOk(w, Derive(w, s))
  {
    DeriveKeepsProfiles(w, s);
    hide P.WellFormed;
  }

  /** Storage written by this store, or none that it can read. */
  ghost predicate OwnStorage(w: World, stored: P.Stored)
  {
    || !stored.Payload? || stored.version != 1 || stored.selectedProfileId.None? || stored.profiles.None?
    || exists ps, id :: P.WellFormed(w.ids, ps, id) && stored == P.Persist(w.ids, ps, id)
  }

  lemma InitialInv(w: World, stored: P.Stored, legacy: P.Settings)
    requires P.HostLaws(w.ids) && OwnStorage(w, stored)
    ensures Inv(w, Initial(w, stored, legacy))
  {
    var r := P.Restore(w.ids, stored, legacy);
    var id := if r.selected.Some? then r.selected.value.id else "";
    RestoredWellFormed(w, stored, legacy);
    hide P.Restore, P.HostLaws, P.WellFormed, Agrees, Derive;
    var start := State(r.profiles, id, if r.selected.Some? then r.selected.value.name else "",
                       if r.selected.Some? then r.selected.value.settings else EMPTY_SETTINGS,
                       NO_FILTER, None, None, None, None, None, None, Idle, [IDLE_EVENT], DataView, "", None);
    DeriveAgrees(w, start);
    DeriveIdempotent(w, start);
    SameProfiles(w, start);
  }

  lemma RestoredWellFormed(w: World, stored: P.Stored, legacy: P.Settings)
    requires P.HostLaws(w.ids) && OwnStorage(w, stored)
    ensures var r := P.Restore(w.ids, stored, legacy);
            P.WellFormed(w.ids, r.profiles, if r.selected.Some? then r.selected.value.id else "")
  {
    DefaultWellFormed(w, legacy);
    hide P.Persist, P.WellFormed, P.HostLaws, P.SanitizeAll, P.StableProfileId, P.Find, P.DefaultProfiles;
    if ps, id :| P.WellFormed(w.ids, ps, id) && stored == P.Persist(w.ids, ps, id) {
      P.RestorePersisted(w.ids, ps, id, legacy);
    }
  }

  lemma DefaultWellFormed(w: World, legacy: P.Settings)
    requires P.HostLaws(w.ids)
    ensures P.WellFormed(w.ids, P.DefaultProfiles(legacy).profiles, "local-workspace")
  {
    var p := P.Profile("local-workspace", "Local workspace", legacy);
    assert P.Good(w.ids, p);
    assert p in [p];
  }

  /** After every sequence of actions the derived fields agree, and profile ids are distinct slugs. */
  lemma {:induction false} EveryRunKeepsInv(w: World, stored: P.Stored, legacy: P.Settings, actions: seq<Action>)
    requires P.HostLaws(w.ids) && OwnStorage(w, stored)
    ensures Inv(w, Run(w, Initial(w, stored, legacy), actions))
  {
    if actions == [] {
      InitialInv(w, stored, legacy);
    } else {
      hide P.HostLaws, OwnStorage, Inv, Initial, Step;
      EveryRunKeepsInv(w, stored, legacy, actions[..|actions| - 1]);
      StepKeepsInv(w, Run(w, Initial(w, stored, legacy), actions[..|actions| - 1]), actions[|actions| - 1]);
    }
  }

  /** Closing the page after any run and opening it again brings back the profiles and the selected one. */
  lemma ReopenRestores(w: World, stored: P.Stored, legacy: P.Settings, actions: seq<Action>, i: nat)
    requires P.HostLaws(w.ids) && OwnStorage(w, stored)
    ensures var s := Run(w, Initial(w, stored, legacy), actions);
            var again := Initial(w, P.Persist(w.ids, s.profiles, s.selectedProfileId), legacy);
            && |again.profiles| == |s.profiles| && again.selectedProfileId == s.selectedProfileId
            && (i < |s.profiles| ==>
                  && again.profiles[i].id == s.profiles[i].id && again.profiles[i].name == s.profiles[i].name
                  && again.profiles[i].settings == w.ids.Clean(w.ids.Clean(s.profiles[i].settings)))
  {
    var s := Run(w, Initial(w, stored, legacy), actions);
    EveryRunKeepsInv(w, stored, legacy, actions);
    P.RestorePersisted(w.ids, s.profiles, s.selectedProfileId, legacy);
    hide Run, P.Restore, P.Persist, P.HostLaws, P.WellFormed, Agrees;
  }

  // ----------------------------------------------------------- what actions touch

  lemma CreateAfter(w: World, s: State, i: nat)
    requires P.HostLaws(w.ids) && ProfilesOk(w, s) && i < |s.profiles|
    ensures var t := Step(w, s, CreateProfile);
            && |t.profiles| == |s.profiles| + 1 && t.profiles[i] == s.profiles[i] && t.profiles[|s.profiles|].id == t.selectedProfileId
            && forall p :: p in s.profiles ==> p.id != t.selectedProfileId
  {
    hide P.HostLaws, P.Good, P.UniqueProfileId, Keep, Normalize, EventsForSnapshot, WithoutIdle, Visible, SelectedItem;
    NewIsGood(w, s);
    HandedCreate(w, s);
    hide NewProfile, Handed;
  }

  lemma SaveAfter(w: World, s: State, i: nat)
    requires P.HostLaws(w.ids) && ProfilesOk(w, s) && !Ignored(s, SaveCurrentProfile) && i < |s.profiles|
    ensures var t := Step(w, s, SaveCurrentProfile);
            && |t.profiles| == |s.profiles| && t.profiles[i].id == s.profiles[i].id && t.selectedProfileId == s.selectedProfileId
            && (s.profiles[i].id != s.selectedProfileId ==> t.profiles[i] == s.profiles[i])
  {
    hide P.HostLaws, P.Good, Keep, Normalize, EventsForSnapshot, WithoutIdle, Visible, SelectedItem;
    SavedKeepsId(w, s);
    hide SavedProfile;
  }

  lemma RemoveAfter(w: World, s: State, i: nat)
    requires !Ignored(s, RemoveCurrentProfile) && i < |s.profiles|
    ensures var t := Step(w, s, RemoveCurrentProfile);
            t.selectedProfileId == "" && (s.profiles[i] in t.profiles <==> s.profiles[i].id != s.selectedProfileId)
  {
    KeepExact(s.profiles, (p: P.Profile) => p.id != s.selectedProfileId);
    hide Keep, Normalize, EventsForSnapshot, WithoutIdle, Visible, SelectedItem;
    assert s.profiles[i] in s.profiles;
  }

  lemma OthersAfter(w: World, s: State, a: Action)
    requires !Ignored(s, a) && !a.CreateProfile? && !a.SaveCurrentProfile? && !a.RemoveCurrentProfile?
    ensures Step(w, s, a).profiles == s.profiles
  {
    hide Keep, Normalize, EventsForSnapshot, WithoutIdle, Visible, SelectedItem, SavedProfile, NewProfile, Replaced, Others, P.Find;
  }

  /** Only saving, creating and removing change the profiles: in place, at the end, and by leaving one out. */
  lemma ProfilesAfter(w: World, s: State, a: Action, i: nat)
    requires P.HostLaws(w.ids) && ProfilesOk(w, s) && !Ignored(s, a) && i < |s.profiles|
    ensures var t := Step(w, s, a);
            && (a.CreateProfile? ==> |t.profiles| == |s.profiles| + 1 && t.profiles[i] == s.profiles[i]
                                     && t.profiles[|s.profiles|].id == t.selectedProfileId
                                     && forall p :: p in s.profiles ==> p.id != t.selectedProfileId)
            && (a.SaveCurrentProfile? ==> |t.profiles| == |s.profiles| && t.profiles[i].id == s.profiles[i].id
                                          && (s.profiles[i].id != s.selectedProfileId ==> t.profiles[i] == s.profiles[i])
                                          && t.selectedProfileId == s.selectedProfileId)
            && (a.RemoveCurrentProfile? ==> t.selectedProfileId == ""
                                            && (s.profiles[i] in t.profiles <==> s.profiles[i].id != s.selectedProfileId))
            && (!a.CreateProfile? && !a.SaveCurrentProfile? && !a.RemoveCurrentProfile? ==> t.profiles == s.profiles)
  {
    hide Step, Ignored, P.HostLaws, ProfilesOk;
    match a {
      case CreateProfile => CreateAfter(w, s, i);
      case SaveCurrentProfile => SaveAfter(w, s, i);
      case RemoveCurrentProfile => RemoveAfter(w, s, i);
      case _ => OthersAfter(w, s, a);
    }
  }

  /** Leaving a workspace leaves nothing of it: no snapshot, view, selection, filter, or events but the idle one. */
  lemma WorkspaceLeft(w: World, s: State, a: Action)
    requires !Ignored(s, a) && (a.CreateProfile? || a.RemoveCurrentProfile? || a.Disconnect? || a.SelectProfile?)
    ensures var t := Step(w, s, a);
            && t.snapshot.None? && t.visible.None? && t.normalized.None? && t.projection.None?
            && t.selection.None? && t.selectedItem.None? && t.lastExecutedQuery.None?
            && t.filter == NO_FILTER && t.schemaFilter == "" && t.connection == Idle && t.events == [IDLE_EVENT] && t.graphView == s.graphView
  {
    hide SavedProfile, NewProfile, Replaced, Others, Normalize, EventsForSnapshot, WithoutIdle, Visible, SelectedItem;
  }

  // --------------------------------------------------------- ids and what they name

  lemma {:induction false} SplitAt(a: string, b: string)
    requires ':' !in a
    ensures Split(a + ":" + b) == [a] + Split(b)
  {
    if a == [] {
      assert a + ":" + b == ":" + b && (":" + b)[1..] == b;
    } else {
      SplitAt(a[1..], b);
      var whole := a + ":" + b;
      assert whole[1..] == a[1..] + ":" + b;
      assert whole[0] == a[0] && [a[0]] + a[1..] == a;
      assert ([a[1..]] + Split(b))[1..] == Split(b);
    }
  }

  lemma {:induction false} SplitWhole(a: string)
    requires ':' !in a
    ensures Split(a) == [a]
  {
    if a != [] {
      SplitWhole(a[1..]);
      assert [a[0]] + a[1..] == a;
    }
  }

  lemma {:induction false} SplitHasNoColon(s: string)
    ensures forall i :: 0 <= i < |Split(s)| ==> ':' !in Split(s)[i]
  {
    if s != [] {
      SplitHasNoColon(s[1..]);
    }
  }

  /** Pieces with a colon between any two. */
  function Joined(pieces: seq<string>): string
    requires pieces != []
  {
    if |pieces| == 1 then pieces[0] else pieces[0] + ":" + Joined(pieces[1..])
  }

  /** Splitting gives the pieces without a colon that make the text up. */
  lemma {:induction false} SplitExactly(s: string)
    ensures Joined(Split(s)) == s && forall p :: p in Split(s) ==> ':' !in p
  {
    if s != [] {
      SplitExactly(s[1..]);
      var rest := Split(s[1..]);
      if s[0] == ':' {
        assert ([""] + rest)[1..] == rest;
      } else {
        var pieces := [[s[0]] + rest[0]] + rest[1..];
        assert pieces[1..] == rest[1..];
        assert [s[0]] + s[1..] == s;
        if |rest| > 1 {
          assert [s[0]] + (rest[0] + ":" + Joined(rest[1..])) == [s[0]] + rest[0] + ":" + Joined(rest[1..]);
        }
      }
    }
  }

  /** The id the schema view gives the edge at a position. */
  function DrawnEdgeId(model: string, index: nat): string
  {
    EDGE_PREFIX + model + ":" + Dec(index)
  }

  lemma DrawnIdParts(model: string, index: nat)
    ensures ':' !in model ==> Split(DrawnEdgeId(model, index)) == ["schema-edge", model, Dec(index)]
    ensures |Split(DrawnEdgeId(model, index))| >= 2 && ':' !in Split(DrawnEdgeId(model, index))[1]
  {
    var rest := model + ":" + Dec(index);
    var d := Dec(index);
    assert AllDigits(d);
    assert DrawnEdgeId(model, index) == "schema-edge" + ":" + rest;
    SplitAt("schema-edge", rest);
    SplitHasNoColon(rest);
    if ':' !in model {
      assert ':' !in d;
      SplitAt(model, d);
      SplitWhole(d);
    }
    hide Split, Dec;
  }

  /** Selecting a drawn schema edge by its id finds that very edge exactly when its model's name has no colon. */
  lemma SchemaEdgeIdExact(w: World, s: Snapshot, index: nat)
    requires forall n: nat :: w.NumberOf(Dec(n)) == Some(n)
    requires index < |SchemaEdgesOf(s)|
    ensures SchemaEdgeFromSelection(w, s, DrawnEdgeId(SchemaEdgesOf(s)[index].model, index)) == Some(SchemaEdgesOf(s)[index])
            <==> ':' !in SchemaEdgesOf(s)[index].model
  {
    DrawnIdParts(SchemaEdgesOf(s)[index].model, index);
    hide Split, Dec, SchemaEdgesOf, DrawnEdgeId;
  }

  const COLONED := Snapshot("demo", [], ["a:b"], None, None, Some([SchemaEdge("a:b", "n", "n")]), [], [], 10, 0, "service", None)

  /** A schema edge whose model name has a colon is drawn under an id that finds nothing. */
  lemma ColonedEdgeNotFound(w: World)
    requires forall n: nat :: w.NumberOf(Dec(n)) == Some(n)
    ensures SchemaEdgeFromSelection(w, COLONED, DrawnEdgeId("a:b", 0)).None?
  {
    var edges := SchemaEdgesOf(COLONED);
    assert edges == [SchemaEdge("a:b", "n", "n")];
    assert "a:b"[1] == ':';
    DrawnIdParts("a:b", 0);
    hide Split, Dec, SchemaEdgesOf, DrawnEdgeId;
    SchemaEdgeFoundExactly(w, COLONED, DrawnEdgeId("a:b", 0));
  }

  /** The index by id holds each id listed, and no other, under the last node listed with it. */
  lemma {:induction false} NodesByIdExact(nodes: seq<Node>)
    ensures forall id :: id in NodesById(nodes) ==> NodesById(nodes)[id] in nodes && NodesById(nodes)[id].id == id
    ensures forall n :: n in nodes ==> n.id in NodesById(nodes)
    ensures forall i :: 0 <= i < |nodes| && (forall j :: i < j < |nodes| ==> nodes[j].id != nodes[i].id) ==> NodesById(nodes)[nodes[i].id] == nodes[i]
  {
    if nodes != [] {
      var init, last := nodes[..|nodes| - 1], nodes[|nodes| - 1];
      NodesByIdExact(init);
      assert nodes == init + [last];
      forall i | 0 <= i < |nodes| && forall j :: i < j < |nodes| ==> nodes[j].id != nodes[i].id
        ensures NodesById(nodes)[nodes[i].id] == nodes[i]
      {
        if i < |init| {
          assert init[i] == nodes[i] && forall j :: i < j < |init| ==> init[j] == nodes[j];
        }
      }
    }
  }

  lemma {:induction false} EdgesByIdExact(edges: seq<Edge>)
    ensures forall id :: id in EdgesById(edges) ==> EdgesById(edges)[id] in edges && EdgesById(edges)[id].id == id
    ensures forall e :: e in edges ==> e.id in EdgesById(edges)
    ensures forall i :: 0 <= i < |edges| && (forall j :: i < j < |edges| ==> edges[j].id != edges[i].id) ==> EdgesById(edges)[edges[i].id] == edges[i]
  {
    if edges != [] {
      var init, last := edges[..|edges| - 1], edges[|edges| - 1];
      EdgesByIdExact(init);
      assert edges == init + [last];
      forall i | 0 <= i < |edges| && forall j :: i < j < |edges| ==> edges[j].id != edges[i].id
        ensures EdgesById(edges)[edges[i].id] == edges[i]
      {
        if i < |init| {
          assert init[i] == edges[i] && forall j :: i < j < |init| ==> init[j] == edges[j];
        }
      }
    }
  }

  /** Looking every id up gives the nodes back exactly when nodes with one id are one node. */
  lemma NormalizedGivesBack(s: Snapshot)
    ensures var n := Normalize(s);
            (forall i :: 0 <= i < |s.nodes| ==> n.nodeIds[i] in n.nodesById && n.nodesById[n.nodeIds[i]] == s.nodes[i])
            <==> forall a, b :: a in s.nodes && b in s.nodes && a.id == b.id ==> a == b
  {
    var n := Normalize(s);
    NodesByIdExact(s.nodes);
    hide NodesById, NodeIds;
    if forall i :: 0 <= i < |s.nodes| ==> n.nodeIds[i] in n.nodesById && n.nodesById[n.nodeIds[i]] == s.nodes[i] {
      forall a, b | a in s.nodes && b in s.nodes && a.id == b.id
        ensures a == b
      {
        var i :| 0 <= i < |s.nodes| && s.nodes[i] == a;
        var j :| 0 <= j < |s.nodes| && s.nodes[j] == b;
        assert n.nodesById[n.nodeIds[i]] == a && n.nodesById[n.nodeIds[j]] == b;
      }
    } else {
      var i :| 0 <= i < |s.nodes| && !(n.nodeIds[i] in n.nodesById && n.nodesById[n.nodeIds[i]] == s.nodes[i]);
      assert s.nodes[i] in s.nodes;
    }
  }

  const UNNAMED := Snapshot("demo", [""], [], None, None, None, [], [], 10, 0, "service", None)

  /** From any state: a model without a name can be selected, and then there is a selection but no item. */
  lemma UnnamedModelHasNoItem(w: World, s: State)
    ensures var t := Run(w, s, [LoadSnapshot(UNNAMED), SelectGraphItem(Some(Selection(NodeKind, NODE_PREFIX)))]);
            t.selection == Some(Selection(NodeKind, NODE_PREFIX)) && t.selectedItem.None?
  {
    var sel := Selection(NodeKind, NODE_PREFIX);
    var loaded := Step(w, s, LoadSnapshot(UNNAMED));
    RunTwo(w, s, LoadSnapshot(UNNAMED), SelectGraphItem(Some(sel)));
    LoadStep(w, s, UNNAMED);
    UnnamedVisible(w, s.filter);
    SelectStep(w, loaded, sel);
    var v := Filtered(w.text, UNNAMED, s.filter);
    hide Step, Run, Filtered, Visible, SelectedItem, Unshowable, KeepIfVisible;
    VisibleHasItem(w, sel, v, loaded.projection);
  }

  lemma RunTwo(w: World, s: State, a: Action, b: Action)
    ensures Run(w, s, [a, b]) == Step(w, Step(w, s, a), b)
  {
    hide Step;
    assert [a, b][..1] == [a] && [a][..0] == [];
    assert Run(w, s, [a]) == Step(w, Run(w, s, []), a);
  }

  lemma LoadStep(w: World, s: State, snapshot: Snapshot)
    ensures var t := Step(w, s, LoadSnapshot(snapshot));
            t.snapshot == Some(snapshot) && t.filter == s.filter && t.projection == s.projection
  {
    hide Filtered, Visible, SelectedItem, Normalize, EventsForSnapshot, Keep;
  }

  /** Selecting shows the selection, with its item, exactly when the filtered snapshot has it. */
  lemma SelectStep(w: World, s: State, sel: Selection)
    requires s.snapshot.Some?
    ensures var t, v := Step(w, s, SelectGraphItem(Some(sel))), Filtered(w.text, s.snapshot.value, s.filter);
            if Visible(w, sel, v) then t.selection == Some(sel) && t.selectedItem == SelectedItem(w, sel, v, s.projection)
            else t.selection.None? && t.selectedItem.None?
  {
    hide Filtered, Visible, SelectedItem, Normalize, EventsForSnapshot, Keep;
  }

  lemma UnnamedVisible(w: World, filter: Filter)
    ensures var v := Filtered(w.text, UNNAMED, filter);
            Visible(w, Selection(NodeKind, NODE_PREFIX), v) && Unshowable(Selection(NodeKind, NODE_PREFIX), v)
  {
    var v := Filtered(w.text, UNNAMED, filter);
    assert v.nodes == [] && SchemaNodeModels(v) == ModelsNamed([""]);
    var m := NodeModel("", "id", []);
    assert ModelsNamed([""])[0] == m;
    assert m in SchemaNodeModels(v) && NODE_PREFIX + m.name == NODE_PREFIX;
  }

  // ------------------------------------------------------ what a step does, in full

  /** Changing fields that nothing derives from, or that are derived, from a settled state recomputes nothing. */
  lemma Settled(w: World, s: State, t: State)
    requires Derive(w, s) == s
    requires t.snapshot == s.snapshot && t.filter == s.filter && t.projection == s.projection
    requires t.visible == s.visible && t.normalized == s.normalized && t.events == s.events
    requires (t.selection == s.selection && t.selectedItem == s.selectedItem) || (t.selection.None? && t.selectedItem.None?)
    ensures Derive(w, t) == t
  {
    hide Filtered, Visible, SelectedItem, Normalize, EventsForSnapshot, Keep;
  }

  /** An event added to a settled state with a snapshot goes to the end, if it is an ordinary one. */
  lemma EventAdded(w: World, s: State, e: Event)
    requires Derive(w, s) == s && s.snapshot.Some?
    ensures Derive(w, s.(events := WithoutIdle(s.events) + [e])) == if Ordinary(e) then s.(events := s.events + [e]) else s
  {
    var first := EventsForSnapshot(s.snapshot.value, s.visible);
    var rest := Keep(s.events, Ordinary);
    var t := s.(events := WithoutIdle(s.events) + [e]);
    assert s.events == first + rest && first == [first[0], first[1]];
    KeepSnoc(WithoutIdle(s.events), e, Ordinary);
    KeepNarrower(s.events, (e: Event) => e.id != "idle", Ordinary);
    assert Keep(t.events, Ordinary) == rest + (if Ordinary(e) then [e] else []);
    assert first + (rest + [e]) == s.events + [e] && rest + [] == rest;
    hide Filtered, Visible, SelectedItem, Normalize, EventsForSnapshot, Keep, WithoutIdle;
  }

  lemma QueryEventsOrdinary(e: Event, now: nat)
    ensures Ordinary(e.(id := QueryId(now)))
  {
    var id := QueryId(now);
    assert id[0] == 'q' && "idle"[0] == 'i' && "snapshot-read"[0] == 's' && "filter-boundary"[0] == 'f';
  }

  /** Nothing of a workspace is left but the idle event. */
  predicate WorkspaceEmpty(s: State)
  {
    && s.snapshot.None? && s.visible.None? && s.normalized.None? && s.projection.None?
    && s.selection.None? && s.selectedItem.None? && s.lastExecutedQuery.None? && s.events == [IDLE_EVENT]
  }

  /** `t` comes from `s` by leaving the workspace: its filters are gone too, and no connection is left. */
  predicate Left(s: State, t: State)
  {
    WorkspaceEmpty(t) && t.filter == NO_FILTER && t.schemaFilter == "" && t.connection == Idle && t.graphView == s.graphView
  }

  /** The workspace part of the state, which the profile actions that stay in it leave alone. */
  predicate SameWorkspace(s: State, t: State)
  {
    && t.snapshot == s.snapshot && t.visible == s.visible && t.normalized == s.normalized && t.projection == s.projection
    && t.filter == s.filter && t.selection == s.selection && t.selectedItem == s.selectedItem && t.events == s.events
    && t.connection == s.connection && t.graphView == s.graphView && t.schemaFilter == s.schemaFilter
    && t.lastExecutedQuery == s.lastExecutedQuery
  }

  /** The profile part. */
  predicate SameProfilePart(s: State, t: State)
  {
    t.profiles == s.profiles && t.selectedProfileId == s.selectedProfileId
    && t.draftProfileName == s.draftProfileName && t.settings == s.settings
  }

  /** `s` with the snapshot of `t` and what derives from it; the rest is as it was. */
  function Reread(s: State, t: State): State
  {
    s.(snapshot := t.snapshot, visible := t.visible, normalized := t.normalized, selection := t.selection,
       selectedItem := t.selectedItem, events := t.events)
  }

  lemma Saved(w: World, s: State)
    requires Inv(w, s) && P.HostLaws(w.ids) && !Ignored(s, SaveCurrentProfile)
    ensures var t := Step(w, s, SaveCurrentProfile);
            && SameWorkspace(s, t) && t.selectedProfileId == s.selectedProfileId && |t.profiles| == |s.profiles|
            && (forall i :: 0 <= i < |s.profiles| ==>
                  if s.profiles[i].id == s.selectedProfileId
                  then t.profiles[i] == P.Profile(s.selectedProfileId, t.draftProfileName, w.ids.Clean(s.settings))
                  else t.profiles[i] == s.profiles[i])
            && t.settings == w.ids.Clean(s.settings)
            && t.draftProfileName == SavedNameOf(w, s.draftProfileName)
  {
    SavedKeepsId(w, s);
    SavedName(w, s);
    Settled(w, s, Handed(w, s, SaveCurrentProfile));
    hide Derive, SavedProfile, P.HostLaws, Agrees, ProfilesOk, P.Good;
  }

  lemma DeriveKeepsProfilePart(w: World, s: State)
    ensures SameProfilePart(s, Derive(w, s))
  {
  }

  lemma QueryEvents(events: seq<Event>, event: Event, now: nat)
    ensures var e := event.(id := QueryId(now));
            Keep(WithoutIdle(events) + [e], Ordinary) == Keep(events, Ordinary) + [e]
  {
    KeepSnoc(WithoutIdle(events), event.(id := QueryId(now)), Ordinary);
    KeepNarrower(events, (e: Event) => e.id != "idle", Ordinary);
    QueryEventsOrdinary(event, now);
  }

  lemma Queried(w: World, s: State, result: Snapshot, partialReason: Option<string>, now: nat, event: Event)
    ensures var a := ApplyQueryResponse(result, partialReason, now, event);
            var t := Step(w, s, a);
            var snapshot := result.(partialReason := if partialReason.Some? then partialReason else result.partialReason);
            && t.snapshot == Some(snapshot) && t.filter == NO_FILTER && t.selection.None? && t.selectedItem.None?
            && t.lastExecutedQuery == Some(QueryId(now)) && SameProfilePart(s, t)
            && t.visible == Some(Filtered(w.text, snapshot, NO_FILTER))
            && t.events == EventsForSnapshot(snapshot, t.visible) + Keep(s.events, Ordinary) + [event.(id := QueryId(now))]
            && t == Reread(s, t).(filter := NO_FILTER, lastExecutedQuery := Some(QueryId(now)))
  {
    hide Filtered, Visible, SelectedItem, Normalize, EventsForSnapshot, Keep, WithoutIdle, QueryId, Ordinary;
    QueryEvents(s.events, event, now);
    Assoc3(EventsForSnapshot(Step(w, s, ApplyQueryResponse(result, partialReason, now, event)).snapshot.value,
                             Step(w, s, ApplyQueryResponse(result, partialReason, now, event)).visible),
           Keep(s.events, Ordinary), [event.(id := QueryId(now))]);
  }

  lemma Loaded(w: World, s: State, snapshot: Snapshot)
    ensures var t := Step(w, s, LoadSnapshot(snapshot));
            && t.snapshot == Some(snapshot) && t.visible == Some(Filtered(w.text, snapshot, s.filter)) && t.filter == s.filter
            && t.connection == Connected && t.lastExecutedQuery.None? && SameProfilePart(s, t)
            && t.events == EventsForSnapshot(snapshot, t.visible)
            && t.selection == KeepIfVisible(w, s.selection, t.visible)
            && t == Reread(s, t).(connection := Connected, lastExecutedQuery := None)
  {
    NoStale(snapshot, s.visible);
    hide Filtered, Visible, SelectedItem, Normalize, EventsForSnapshot, Keep;
    var own := EventsForSnapshot(snapshot, Some(Filtered(w.text, snapshot, s.filter)));
    assert own + [] == own;
  }

  /** Recomputing drops a snapshot's own events of before. */
  lemma NoStale(snapshot: Snapshot, visible: Option<Snapshot>)
    ensures Keep(EventsForSnapshot(snapshot, visible), Ordinary) == []
  {
    var stale := EventsForSnapshot(snapshot, visible);
    KeepDropsFront(stale[0], stale[1], []);
    assert stale == [stale[0], stale[1]] + [];
  }

  /** Refiltering and reselecting leave everything else. */
  lemma Refiltered(w: World, s: State, filter: Filter)
    ensures var t := Step(w, s, ApplyGraphFilter(filter));
            && SameProfilePart(s, t) && t.snapshot == s.snapshot && t.filter == filter && t.connection == s.connection
            && t.visible == (if s.snapshot.Some? then Some(Filtered(w.text, s.snapshot.value, filter)) else None)
            && t.selection == KeepIfVisible(w, s.selection, t.visible)
            && t == Reread(s, t).(filter := filter, lastExecutedQuery := None)
  {
    hide Filtered, Visible, SelectedItem, Normalize, EventsForSnapshot, Keep;
  }

  lemma Selected(w: World, s: State, selection: Option<Selection>)
    requires Derive(w, s) == s
    ensures var t := Step(w, s, SelectGraphItem(selection));
            && t == s.(selection := t.selection, selectedItem := t.selectedItem)
            && t.selection == KeepIfVisible(w, selection, s.visible)
  {
    hide Filtered, Visible, SelectedItem, Normalize, EventsForSnapshot, Keep;
  }

  lemma Projected(w: World, s: State, projection: Option<Projection>)
    requires Derive(w, s) == s
    ensures var t := Step(w, s, LoadVisualProjection(projection));
            t == s.(projection := projection, selectedItem := t.selectedItem)
  {
    hide Filtered, Visible, SelectedItem, Normalize, EventsForSnapshot, Keep;
  }

  lemma SettingsUpdated(w: World, s: State, merged: P.Settings)
    requires Derive(w, s) == s
    ensures Step(w, s, UpdateSettings(merged)) == s.(settings := w.ids.Clean(merged))
  {
    hide Filtered, Visible, SelectedItem, Normalize, EventsForSnapshot, Keep;
  }

  lemma NameUpdated(w: World, s: State, name: string)
    requires Derive(w, s) == s
    ensures Step(w, s, UpdateDraftProfileName(name)) == s.(draftProfileName := name)
  {
    hide Filtered, Visible, SelectedItem, Normalize, EventsForSnapshot, Keep;
  }

  lemma LoadBegun(w: World, s: State)
    requires Derive(w, s) == s
    ensures Step(w, s, BeginSnapshotLoad) == s.(connection := Loading, selection := None, selectedItem := None)
  {
    hide Filtered, Visible, SelectedItem, Normalize, EventsForSnapshot, Keep;
  }

  lemma PanelSelected(w: World, s: State)
    requires Derive(w, s) == s
    ensures Step(w, s, SelectWorkspacePanel) == s.(selection := None, selectedItem := None)
  {
    hide Filtered, Visible, SelectedItem, Normalize, EventsForSnapshot, Keep;
  }

  lemma SchemaFiltered(w: World, s: State, text: string)
    requires Derive(w, s) == s
    ensures Step(w, s, SetSchemaFilter(text)) == s.(schemaFilter := text, lastExecutedQuery := None)
  {
    hide Filtered, Visible, SelectedItem, Normalize, EventsForSnapshot, Keep;
  }

  lemma QueryRejected(w: World, s: State)
    requires Derive(w, s) == s
    ensures Step(w, s, RejectQueryCommand) == s.(lastExecutedQuery := None)
  {
    hide Filtered, Visible, SelectedItem, Normalize, EventsForSnapshot, Keep;
  }

  lemma ViewSwitched(w: World, s: State)
    requires Derive(w, s) == s
    ensures Step(w, s, SwitchView) == s
  {
    hide Filtered, Visible, SelectedItem, Normalize, EventsForSnapshot, Keep;
  }

  lemma IgnoredStep(w: World, s: State, a: Action)
    requires Ignored(s, a)
    ensures Step(w, s, a) == s
  {
  }

  lemma ClearedIsNoFilter(w: World, s: State)
    ensures Step(w, s, ClearGraphFilter) == Step(w, s, ApplyGraphFilter(NO_FILTER))
  {
    hide Derive;
  }

  lemma EventApplied(w: World, s: State, e: Event)
    requires Derive(w, s) == s && s.snapshot.Some?
    ensures Step(w, s, ApplyExecutionEvent(e)) == s.(events := s.events + (if Ordinary(e) then [e] else []))
  {
    EventAdded(w, s, e);
    assert s.events + [] == s.events;
    hide Derive, Ordinary, WithoutIdle;
  }

  lemma Viewed(w: World, s: State, view: GraphView)
    requires Derive(w, s) == s
    ensures Step(w, s, SetGraphView(view))
            == s.(graphView := view, selection := None, selectedItem := None, lastExecutedQuery := None)
  {
    hide Filtered, Visible, SelectedItem, Normalize, EventsForSnapshot, Keep;
  }

  lemma Recorded(w: World, s: State, now: nat, event: Event)
    requires Derive(w, s) == s && s.snapshot.Some?
    ensures Step(w, s, RecordQueryExecution(now, event))
            == s.(lastExecutedQuery := Some(QueryId(now)), events := s.events + [event.(id := QueryId(now))])
  {
    var t := s.(lastExecutedQuery := Some(QueryId(now)));
    Settled(w, s, t);
    EventAdded(w, t, event.(id := QueryId(now)));
    QueryEventsOrdinary(event, now);
    hide Derive, QueryId, WithoutIdle, Ordinary;
  }

  /** Without a snapshot nothing is derived but its absence. */
  lemma Emptied(w: World, s: State, a: Action)
    requires a.MarkConnectionFailed? || a.ClearWorkspace? || a.Disconnect?
    ensures WorkspaceEmpty(Step(w, s, a)) && SameProfilePart(s, Step(w, s, a))
    ensures Step(w, s, a).graphView == s.graphView
    ensures !a.Disconnect? ==> Step(w, s, a).filter == s.filter && Step(w, s, a).schemaFilter == s.schemaFilter
    ensures a.MarkConnectionFailed? ==> Step(w, s, a).connection == Failed
    ensures a.ClearWorkspace? ==> Step(w, s, a).connection == s.connection
    ensures a.Disconnect? ==> Left(s, Step(w, s, a))
  {
    hide SavedProfile, NewProfile, Replaced, Others, Normalize, EventsForSnapshot, WithoutIdle, Visible, SelectedItem;
  }

  lemma EventWithoutSnapshot(w: World, s: State, e: Event)
    requires Derive(w, s) == s && s.snapshot.None?
    ensures Step(w, s, ApplyExecutionEvent(e)) == s.(events := WithoutIdle(s.events) + [e])
  {
    hide Filtered, Visible, SelectedItem, Normalize, EventsForSnapshot, Keep, WithoutIdle;
  }

  lemma Chosen(w: World, s: State, id: string)
    requires P.Find(s.profiles, id).Some?
    ensures var t, p := Step(w, s, SelectProfile(id)), P.Find(s.profiles, id).value;
            && t.profiles == s.profiles && t.selectedProfileId == id && t.draftProfileName == p.name && t.settings == p.settings
            && Left(s, t)
  {
    WorkspaceLeft(w, s, SelectProfile(id));
    hide SavedProfile, NewProfile, Replaced, Others, Normalize, EventsForSnapshot, WithoutIdle, Visible, SelectedItem, P.Find;
  }

  /** An unknown id is ignored. */
  lemma ChosenIfKnown(w: World, s: State, id: string)
    ensures (forall p :: p in s.profiles ==> p.id != id) ==> Ignored(s, SelectProfile(id)) && Step(w, s, SelectProfile(id)) == s
    ensures var t := Step(w, s, SelectProfile(id));
            (exists p :: p in s.profiles && p.id == id) ==>
              && t.profiles == s.profiles && Left(s, t) && t.selectedProfileId == id
              && exists p :: p in t.profiles && p.id == id && t.draftProfileName == p.name && t.settings == p.settings
  {
    hide Left, Handed, Derive;
    if P.Find(s.profiles, id).Some? {
      hide Step;
      Chosen(w, s, id);
    }
  }

  lemma Removed(w: World, s: State)
    requires !Ignored(s, RemoveCurrentProfile)
    ensures var t := Step(w, s, RemoveCurrentProfile);
            && Left(s, t) && t.selectedProfileId == "" && t.draftProfileName == "" && t.settings == EMPTY_SETTINGS && Subsequence(t.profiles, s.profiles)
            && forall p :: p in t.profiles <==> p in s.profiles && p.id != s.selectedProfileId
  {
    WorkspaceLeft(w, s, RemoveCurrentProfile);
    KeepExact(s.profiles, (p: P.Profile) => p.id != s.selectedProfileId);
    KeepIsSubsequence(s.profiles, (p: P.Profile) => p.id != s.selectedProfileId);
    hide SavedProfile, NewProfile, Replaced, Keep, Subsequence, Normalize, EventsForSnapshot, WithoutIdle, Visible, SelectedItem;
  }

  lemma Made(w: World, s: State)
    requires Inv(w, s) && P.HostLaws(w.ids)
    ensures var t, p := Step(w, s, CreateProfile), NewProfile(w, s);
            && Left(s, t) && t.profiles == s.profiles + [p] && t.selectedProfileId == p.id
            && t.draftProfileName == "" && t.settings == p.settings
            && p.name == "New profile" && p.settings == w.ids.Clean(EMPTY_SETTINGS)
            && forall q :: q in s.profiles ==> q.id != p.id
  {
    NewIsGood(w, s);
    HandedCreate(w, s);
    WorkspaceLeft(w, s, CreateProfile);
    NewNamed(w, s);
    DeriveKeepsProfilePart(w, Handed(w, s, CreateProfile));
    hide Derive, Handed, NewProfile, P.HostLaws, Agrees, ProfilesOk, P.Good, P.UniqueProfileId;
  }

  lemma NewNamed(w: World, s: State)
    requires P.HostLaws(w.ids)
    ensures NewProfile(w, s).name == "New profile" && NewProfile(w, s).settings == w.ids.Clean(EMPTY_SETTINGS)
  {
    hide P.StableProfileId, P.IsSlug, P.UniqueProfileId;
  }

  lemma SavedName(w: World, s: State)
    requires P.HostLaws(w.ids)
    ensures SavedProfile(w, s).name == SavedNameOf(w, s.draftProfileName)
    ensures SavedProfile(w, s).settings == w.ids.Clean(s.settings)
  {
    hide P.StableProfileId, P.IsSlug;
  }

  // ------------------------------------------------------------------ the store

  function IdsOf(ps: seq<P.Profile>): (r: seq<string>)
    ensures |r| == |ps| && forall i :: 0 <= i < |ps| ==> r[i] == ps[i].id
  {
    if ps == [] then [] else IdsOf(ps[..|ps| - 1]) + [ps[|ps| - 1].id]
  }

  lemma SameIds(ps: seq<P.Profile>)
    ensures (set x | x in IdsOf(ps)) == ProfileIds(ps)
  {
    var ids := IdsOf(ps);
    forall x | x in ids
      ensures x in ProfileIds(ps)
    {
      var i :| 0 <= i < |ids| && ids[i] == x;
      assert ps[i] in ps;
    }
    forall p | p in ps
      ensures p.id in ids
    {
      var i :| 0 <= i < |ps| && ps[i] == p;
      assert ids[i] == p.id;
    }
  }

  /** Opening a store on this storage would show these profiles, by id and name, and this selection. */
  ghost predicate Reopens(w: World, stored: P.Stored, legacy: P.Settings, s: State)
  {
    var r := P.Restore(w.ids, stored, legacy);
    && |r.profiles| == |s.profiles|
    && (forall i :: 0 <= i < |s.profiles| ==>
          && r.profiles[i].id == s.profiles[i].id && r.profiles[i].name == s.profiles[i].name
          && (r.profiles[i].settings == s.profiles[i].settings || r.profiles[i].settings == w.ids.Clean(w.ids.Clean(s.profiles[i].settings))))
    && s.selectedProfileId == if r.selected.Some? then r.selected.value.id else ""
  }

  lemma PersistedReopens(w: World, legacy: P.Settings, s: State)
    requires P.HostLaws(w.ids) && ProfilesOk(w, s)
    ensures Reopens(w, P.Persist(w.ids, s.profiles, s.selectedProfileId), legacy, s)
  {
    hide P.Restore, P.Persist, P.HostLaws;
    P.RestorePersisted(w.ids, s.profiles, s.selectedProfileId, legacy);
    if s.selectedProfileId != "" {
      assert P.Restore(w.ids, P.Persist(w.ids, s.profiles, s.selectedProfileId), legacy).selected.Some?;
    }
  }

  /** A store that opens shows the restored selection's name and settings, and no workspace. */
  lemma InitialShows(w: World, stored: P.Stored, legacy: P.Settings)
    ensures var s, r := Initial(w, stored, legacy), P.Restore(w.ids, stored, legacy);
            && s.profiles == r.profiles && WorkspaceEmpty(s) && s.filter == NO_FILTER && s.schemaFilter == "" && s.connection == Idle
            && s.graphView == DataView
            && if r.selected.None? then s.selectedProfileId == "" && s.draftProfileName == "" && s.settings == EMPTY_SETTINGS
               else s.selectedProfileId == r.selected.value.id && s.draftProfileName == r.selected.value.name
                    && s.settings == r.selected.value.settings
  {
    hide P.Restore, Filtered, Visible, SelectedItem, Normalize, EventsForSnapshot, Keep;
  }

  lemma InitialReopens(w: World, stored: P.Stored, legacy: P.Settings)
    ensures Reopens(w, stored, legacy, Initial(w, stored, legacy))
  {
    hide P.Restore, Filtered, Visible, SelectedItem, Normalize, EventsForSnapshot, Keep;
  }

  class Store {
    const w: World
    const legacy: P.Settings
    var state: State
    var stored: P.Stored

    /** The state is settled and well-formed, and what is stored would bring its profiles back. */
    ghost predicate Valid()
      reads this
    {
      P.HostLaws(w.ids) && Inv(w, state) && Reopens(w, stored, legacy, state)
    }

    constructor (w: World, storage: P.Stored, legacy: P.Settings)
      requires P.HostLaws(w.ids) && OwnStorage(w, storage)
      ensures Valid() && this.w == w && state == Initial(w, storage, legacy) && stored == storage
    {
      this.w, this.legacy := w, legacy;
      state := Initial(w, storage, legacy);
      stored := storage;
      new;
      InitialInv(w, storage, legacy);
      InitialReopens(w, storage, legacy);
    }

    /** Every change goes through here: derived fields recomputed, profiles written, base fields as handed over. */
    method SetState(next: State)
      requires P.HostLaws(w.ids) && ProfilesOk(w, next)
      modifies this
      ensures Valid() && state == Derive(w, next) && SameProfilePart(next, state)
    {
      hide Derive, P.HostLaws, P.Persist, Agrees, ProfilesOk, Reopens;
      DeriveAgrees(w, next);
      DeriveIdempotent(w, next);
      SameProfiles(w, next);
      DeriveKeepsProfilePart(w, next);
      PersistedReopens(w, legacy, Derive(w, next));
      state := Derive(w, next);
      stored := P.Persist(w.ids, state.profiles, state.selectedProfileId);
    }

    /** An action that sets the state to an expression of the state, or returns at once. */
    method Do(a: Action)
      requires Valid()
      modifies this
      ensures Valid() && state == Step(w, old(state), a)
      ensures Ignored(old(state), a) ==> stored == old(stored)
    {
      hide Derive, P.HostLaws, Agrees, ProfilesOk, Reopens, Handed;
      if !Ignored(state, a) {
        HandedKeepsProfiles(w, state, a);
        SetState(Handed(w, state, a));
      }
    }

    method UpdateSettings(merged: P.Settings)
      requires Valid()
      modifies this
      ensures Valid() && state == old(state).(settings := w.ids.Clean(merged))
    {
      SettingsUpdated(w, state, merged);
      hide Valid, Step;
      Do(Action.UpdateSettings(merged));
    }

    method UpdateDraftProfileName(name: string)
      requires Valid()
      modifies this
      ensures Valid() && state == old(state).(draftProfileName := name)
    {
      NameUpdated(w, state, name);
      hide Valid, Step;
      Do(Action.UpdateDraftProfileName(name));
    }

    /** Saves the draft name and settings under the selected profile's id, in place; the workspace stays. */
    method SaveCurrentProfile()
      requires Valid()
      modifies this
      ensures Valid() && SameWorkspace(old(state), state) && state.selectedProfileId == old(state.selectedProfileId)
      ensures (forall p :: p in old(state.profiles) ==> p.id != old(state.selectedProfileId)) ==>
                state == old(state) && stored == old(stored)
      ensures |state.profiles| == |old(state.profiles)|
      ensures forall i :: 0 <= i < |state.profiles| ==>
                var was := old(state).profiles[i];
                if was.id != old(state).selectedProfileId then state.profiles[i] == was
                else state.profiles[i] == P.Profile(was.id, SavedNameOf(w, old(state).draftProfileName), w.ids.Clean(old(state).settings))
      ensures (exists p :: p in old(state.profiles) && p.id == old(state.selectedProfileId)) ==>
                && state.draftProfileName == SavedNameOf(w, old(state.draftProfileName))
                && state.settings == w.ids.Clean(old(state.settings))
    {
      if exists p :: p in state.profiles && p.id == state.selectedProfileId {
        Saved(w, state);
      }
      hide Valid, Derive, Handed;
      Do(Action.SaveCurrentProfile);
    }

    /** Appends a profile under an id nobody has and selects it; the workspace is left. */
    method CreateProfile()
      requires Valid()
      modifies this
      ensures Valid() && Left(old(state), state) && state.draftProfileName == "" && state.settings == w.ids.Clean(EMPTY_SETTINGS)
      ensures |state.profiles| == |old(state.profiles)| + 1 && state.profiles[..|old(state.profiles)|] == old(state.profiles)
      ensures var p := state.profiles[|old(state).profiles|];
              && p.id == state.selectedProfileId && p.name == "New profile" && p.settings == w.ids.Clean(EMPTY_SETTINGS)
              && forall q :: q in old(state).profiles ==> q.id != p.id
    {
      Made(w, state);
      CreateKeepsProfiles(w, state);
      var id := P.FindUniqueProfileId(w.ids, "New profile", IdsOf(state.profiles));
      SameIds(state.profiles);
      hide Valid, Derive, P.Sanitize, P.UniqueProfileId, Left;
      var profile := P.Sanitize(w.ids, P.Profile(id, "New profile", EMPTY_SETTINGS));
      SetState(Disconnected(state).(
        profiles := state.profiles + [profile],
        selectedProfileId := profile.id,
        draftProfileName := "",
        settings := profile.settings));
    }

    /** Takes the selected profile out and leaves its workspace; without one nothing happens. */
    method RemoveCurrentProfile()
      requires Valid()
      modifies this
      ensures Valid()
      ensures old(state.selectedProfileId) == "" ==> state == old(state) && stored == old(stored)
      ensures old(state.selectedProfileId) != "" ==>
                && Left(old(state), state) && state.selectedProfileId == "" && state.draftProfileName == "" && state.settings == EMPTY_SETTINGS
                && Subsequence(state.profiles, old(state.profiles))
                && forall p :: p in state.profiles <==> p in old(state).profiles && p.id != old(state).selectedProfileId
    {
      if state.selectedProfileId != "" {
        Removed(w, state);
      }
      hide Valid, Derive, Handed, Subsequence, Left;
      Do(Action.RemoveCurrentProfile);
    }

    method Disconnect()
      requires Valid()
      modifies this
      ensures Valid() && Left(old(state), state) && SameProfilePart(old(state), state)
    {
      Emptied(w, state, Action.Disconnect);
      hide Valid, Step;
      Do(Action.Disconnect);
    }

    /** Goes over to a profile that exists, leaving the workspace; an unknown id changes nothing. */
    method SelectProfile(profileId: string)
      requires Valid()
      modifies this
      ensures Valid() && state.profiles == old(state.profiles)
      ensures (forall p :: p in old(state.profiles) ==> p.id != profileId) ==> state == old(state) && stored == old(stored)
      ensures (exists p :: p in old(state.profiles) && p.id == profileId) ==>
                && Left(old(state), state) && state.selectedProfileId == profileId
                && exists p :: p in state.profiles && p.id == profileId && state.draftProfileName == p.name && state.settings == p.settings
    {
      ChosenIfKnown(w, state, profileId);
      hide Valid, Step, Ignored, Left;
      Do(Action.SelectProfile(profileId));
    }

    /** Refilters the same snapshot; the selection stays exactly if it is still shown. */
    method ApplyGraphFilter(filter: Filter)
      requires Valid()
      modifies this
      ensures Valid() && SameProfilePart(old(state), state) && state.snapshot == old(state.snapshot) && state.filter == filter
      ensures state.snapshot.Some? ==> state.visible == Some(Filtered(w.text, state.snapshot.value, filter))
      ensures state.selection == KeepIfVisible(w, old(state.selection), state.visible)
      ensures state == Reread(old(state), state).(filter := state.filter, lastExecutedQuery := None)
    {
      Refiltered(w, state, filter);
      hide Valid, Step;
      Do(Action.ApplyGraphFilter(filter));
    }

    method ClearGraphFilter()
      requires Valid()
      modifies this
      ensures Valid() && SameProfilePart(old(state), state) && state.snapshot == old(state.snapshot) && state.filter == NO_FILTER
      ensures state.snapshot.Some? ==> state.visible == Some(Filtered(w.text, state.snapshot.value, NO_FILTER))
      ensures state.selection == KeepIfVisible(w, old(state.selection), state.visible)
      ensures state == Reread(old(state), state).(filter := state.filter, lastExecutedQuery := None)
    {
      Refiltered(w, state, NO_FILTER);
      ClearedIsNoFilter(w, state);
      hide Valid, Step;
      Do(Action.ClearGraphFilter);
    }

    method BeginSnapshotLoad()
      requires Valid()
      modifies this
      ensures Valid() && state == old(state).(connection := Loading, selection := None, selectedItem := None)
    {
      LoadBegun(w, state);
      hide Valid, Step;
      Do(Action.BeginSnapshotLoad);
    }

    /** The snapshot is shown through the current filter; of the events only its own two remain, up to date. */
    method LoadSnapshot(snapshot: Snapshot)
      requires Valid()
      modifies this
      ensures Valid() && SameProfilePart(old(state), state) && state.snapshot == Some(snapshot) && state.connection == Connected
      ensures state.visible == Some(Filtered(w.text, snapshot, old(state.filter)))
      ensures state.selection == KeepIfVisible(w, old(state.selection), state.visible)
      ensures state.events == EventsForSnapshot(snapshot, state.visible)
      ensures state == Reread(old(state), state).(connection := Connected, lastExecutedQuery := None)
    {
      Loaded(w, state, snapshot);
      hide Valid, Step;
      Do(Action.LoadSnapshot(snapshot));
    }

    method MarkConnectionFailed()
      requires Valid()
      modifies this
      ensures Valid() && WorkspaceEmpty(state) && SameProfilePart(old(state), state)
      ensures state.connection == Failed && state.filter == old(state.filter)
      ensures state.schemaFilter == old(state.schemaFilter) && state.graphView == old(state.graphView)
    {
      Emptied(w, state, Action.MarkConnectionFailed);
      hide Valid, Step;
      Do(Action.MarkConnectionFailed);
    }

    method ClearWorkspace()
      requires Valid()
      modifies this
      ensures Valid() && WorkspaceEmpty(state) && SameProfilePart(old(state), state)
      ensures state.connection == old(state.connection) && state.filter == old(state.filter)
      ensures state.schemaFilter == old(state.schemaFilter) && state.graphView == old(state.graphView)
    {
      Emptied(w, state, Action.ClearWorkspace);
      hide Valid, Step;
      Do(Action.ClearWorkspace);
    }

    method SelectGraphItem(selection: Option<Selection>)
      requires Valid()
      modifies this
      ensures Valid() && state == old(state).(selection := state.selection, selectedItem := state.selectedItem)
      ensures state.selection == KeepIfVisible(w, selection, old(state.visible))
      ensures ItemOfSelection(w, state)
    {
      Selected(w, state, selection);
      hide Step;
      Do(Action.SelectGraphItem(selection));
    }

    method LoadVisualProjection(projection: Option<Projection>)
      requires Valid()
      modifies this
      ensures Valid() && state == old(state).(projection := projection, selectedItem := state.selectedItem)
      ensures ItemOfSelection(w, state)
    {
      Projected(w, state, projection);
      hide Step;
      Do(Action.LoadVisualProjection(projection));
    }

    method SelectWorkspacePanel()
      requires Valid()
      modifies this
      ensures Valid() && state == old(state).(selection := None, selectedItem := None)
    {
      PanelSelected(w, state);
      hide Valid, Step;
      Do(Action.SelectWorkspacePanel);
    }

    method SetGraphView(view: GraphView)
      requires Valid()
      modifies this
      ensures Valid() && state == old(state).(graphView := view, selection := None, selectedItem := None, lastExecutedQuery := None)
    {
      Viewed(w, state, view);
      hide Valid, Step;
      Do(Action.SetGraphView(view));
    }

    method SetSchemaFilter(text: string)
      requires Valid()
      modifies this
      ensures Valid() && state == old(state).(schemaFilter := text, lastExecutedQuery := None)
    {
      SchemaFiltered(w, state, text);
      hide Valid, Step;
      Do(Action.SetSchemaFilter(text));
    }

    method RejectQueryCommand()
      requires Valid()
      modifies this
      ensures Valid() && state == old(state).(lastExecutedQuery := None)
    {
      QueryRejected(w, state);
      hide Valid, Step;
      Do(Action.RejectQueryCommand);
    }

    method SwitchView()
      requires Valid()
      modifies this
      ensures Valid() && state == old(state)
    {
      ViewSwitched(w, state);
      hide Valid, Step;
      Do(Action.SwitchView);
    }

    /** The result becomes the snapshot, unfiltered and with nothing selected; the earlier ordinary events stay, the query's own comes last. */
    method ApplyQueryResponse(result: Snapshot, partialReason: Option<string>, now: nat, event: Event)
      requires Valid()
      modifies this
      ensures Valid() && SameProfilePart(old(state), state)
      ensures state.snapshot == Some(result.(partialReason := if partialReason.Some? then partialReason else result.partialReason))
      ensures state.filter == NO_FILTER && state.selection.None? && state.selectedItem.None? && state.lastExecutedQuery == Some(QueryId(now))
      ensures state.events == EventsForSnapshot(state.snapshot.value, state.visible) + Keep(old(state.events), Ordinary)
                               + [event.(id := QueryId(now))]
      ensures state == Reread(old(state), state).(filter := NO_FILTER, lastExecutedQuery := Some(QueryId(now)))
    {
      Queried(w, state, result, partialReason, now, event);
      hide Valid, Step;
      Do(Action.ApplyQueryResponse(result, partialReason, now, event));
    }

    /** With a snapshot loaded the execution is noted and one event added at the end; without one nothing happens. */
    method RecordQueryExecution(now: nat, event: Event)
      requires Valid()
      modifies this
      ensures Valid() && (old(state.snapshot).None? ==> state == old(state) && stored == old(stored))
      ensures old(state.snapshot).Some? ==>
                state == old(state).(lastExecutedQuery := Some(QueryId(now)), events := old(state.events) + [event.(id := QueryId(now))])
    {
      if state.snapshot.Some? {
        Recorded(w, state, now, event);
      } else {
        IgnoredStep(w, state, Action.RecordQueryExecution(now, event));
      }
      hide Valid, Step;
      Do(Action.RecordQueryExecution(now, event));
    }

    method ApplyExecutionEvent(event: Event)
      requires Valid()
      modifies this
      ensures Valid()
      ensures old(state.snapshot).Some? ==> state == old(state).(events := old(state.events) + (if Ordinary(event) then [event] else []))
      ensures old(state.snapshot).None? ==> state == old(state).(events := WithoutIdle(old(state.events)) + [event])
    {
      if state.snapshot.Some? {
        EventApplied(w, state, event);
      } else {
        EventWithoutSnapshot(w, state, event);
      }
      hide Valid, Step;
      Do(Action.ApplyExecutionEvent(event));
    }
  }
}
