/**
 The elements drawn for a snapshot (the data branch of graphElements in
 grm-flight-deck/src/GraphCanvas.tsx): the graph with each collapsed region contracted to one
 element. Labels, colours and sizes are not part of this model.
 */
module GraphElements {
  import opened Prelude
  import opened Orders
  import opened ContainerMap

  datatype Element =
    | RegionElement(id: string, anchorId: string, model: string, collapsed: bool)
    | NodeElement(id: string, model: string, parent: Option<string>)
    | EdgeElement(id: string, sourceId: string, model: string, source: string, target: string, selfLoop: bool)

  function RegionsById(regions: seq<Region>): map<string, Region>
  {
    if regions == [] then map[]
    else RegionsById(regions[..|regions| - 1])[regions[|regions| - 1].id := regions[|regions| - 1]]
  }

  /** What the caller's map promises about the snapshot it was built from. */
  ghost predicate Fits(nodes: seq<Node>, regions: seq<Region>, owner: map<string, string>)
  {
    && (forall i, j :: 0 <= i < j < |regions| ==> regions[i].id != regions[j].id)
    && (forall r :: r in regions ==> "visual-container:" <= r.id && r.id !in NodeModels(nodes) && r.anchorId in NodeModels(nodes))
    && (forall r :: r in regions ==> NoDup(r.memberIds) && r.anchorId !in r.memberIds)
    && (forall r, x :: r in regions && InRegion(x, r) ==> x in owner && owner[x] == r.id)
    && (forall x :: x in owner ==> x in NodeModels(nodes) && exists r :: r in regions && InRegion(x, r))
  }

  predicate Hidden(regions: map<string, Region>, owner: map<string, string>, x: string)
  {
    x in owner && owner[x] != "" && owner[x] in regions && regions[owner[x]].collapsed
  }

  function Endpoint(regions: map<string, Region>, owner: map<string, string>, x: string): string
  {
    if Hidden(regions, owner, x) then owner[x] else x
  }

  predicate Skipped(models: map<string, string>, regions: map<string, Region>, owner: map<string, string>, e: Edge)
  {
    || e.from !in models || e.to !in models
    || (Endpoint(regions, owner, e.from) == Endpoint(regions, owner, e.to)
        && (Endpoint(regions, owner, e.from) != e.from || Endpoint(regions, owner, e.to) != e.to))
  }

  // ------------------------------------------------------------ specification

  function RegionElements(models: map<string, string>, regions: seq<Region>): seq<Element>
    requires forall r :: r in regions ==> r.anchorId in models
  {
    if regions == [] then []
    else
      var r := regions[|regions| - 1];
      RegionElements(models, regions[..|regions| - 1]) + [RegionElement(r.id, r.anchorId, models[r.anchorId], r.collapsed)]
  }

  function NodeElementOf(owner: map<string, string>, n: Node): Element
  {
    NodeElement(n.id, n.model, if n.id in owner && owner[n.id] != "" then Some(owner[n.id]) else None)
  }

  function NodeElements(regions: map<string, Region>, owner: map<string, string>, nodes: seq<Node>): seq<Element>
  {
    if nodes == [] then []
    else
      var n := nodes[|nodes| - 1];
      NodeElements(regions, owner, nodes[..|nodes| - 1]) + (if Hidden(regions, owner, n.id) then [] else [NodeElementOf(owner, n)])
  }

  function EdgeElementOf(regions: map<string, Region>, owner: map<string, string>, e: Edge): Element
  {
    EdgeElement("e" + e.id, e.id, e.model, Endpoint(regions, owner, e.from), Endpoint(regions, owner, e.to), e.from == e.to)
  }

  function EdgeElements(
      models: map<string, string>, regions: map<string, Region>, owner: map<string, string>, edges: seq<Edge>): seq<Element>
  {
    if edges == [] then []
    else
      var e := edges[|edges| - 1];
      EdgeElements(models, regions, owner, edges[..|edges| - 1])
        + (if Skipped(models, regions, owner, e) then [] else [EdgeElementOf(regions, owner, e)])
  }

  function Elements(nodes: seq<Node>, edges: seq<Edge>, regions: seq<Region>, owner: map<string, string>): seq<Element>
    requires forall r :: r in regions ==> r.anchorId in NodeModels(nodes)
  {
    RegionElements(NodeModels(nodes), regions)
    + NodeElements(RegionsById(regions), owner, nodes)
    + EdgeElements(NodeModels(nodes), RegionsById(regions), owner, edges)
  }

  // ---------------------------------------------------------------- the loops

  method IndexRegions(regions: seq<Region>) returns (byId: map<string, Region>)
    ensures byId == RegionsById(regions)
  {
    byId := map[];
    for i := 0 to |regions|
      invariant byId == RegionsById(regions[..i])
    {
      assert regions[..i + 1][..i] == regions[..i];
      byId := byId[regions[i].id := regions[i]];
    }
    assert regions[..|regions|] == regions;
  }

  method PushRegions(models: map<string, string>, regions: seq<Region>) returns (elements: seq<Element>)
    requires forall r :: r in regions ==> r.anchorId in models
    ensures elements == RegionElements(models, regions)
  {
    elements := [];
    for i := 0 to |regions|
      invariant elements == RegionElements(models, regions[..i])
    {
      assert regions[..i + 1][..i] == regions[..i];
      var r := regions[i];
      elements := elements + [RegionElement(r.id, r.anchorId, models[r.anchorId], r.collapsed)];
    }
    assert regions[..|regions|] == regions;
  }

  method PushNodes(before: seq<Element>, regions: map<string, Region>, owner: map<string, string>, nodes: seq<Node>)
    returns (elements: seq<Element>)
    ensures elements == before + NodeElements(regions, owner, nodes)
  {
    elements := before;
    for i := 0 to |nodes|
      invariant elements == before + NodeElements(regions, owner, nodes[..i])
    {
      assert nodes[..i + 1][..i] == nodes[..i];
      var n := nodes[i];
      var parent := if n.id in owner && owner[n.id] != "" then Some(owner[n.id]) else None;
      if parent.Some? && parent.value in regions && regions[parent.value].collapsed {
        continue;
      }
      elements := elements + [NodeElement(n.id, n.model, parent)];
    }
    assert nodes[..|nodes|] == nodes;
  }

  method PushEdges(
      before: seq<Element>, models: map<string, string>, regions: map<string, Region>, owner: map<string, string>,
      edges: seq<Edge>)
    returns (elements: seq<Element>)
    ensures elements == before + EdgeElements(models, regions, owner, edges)
  {
    elements := before;
    for i := 0 to |edges|
      invariant elements == before + EdgeElements(models, regions, owner, edges[..i])
    {
      assert edges[..i + 1][..i] == edges[..i];
      var e := edges[i];
      if e.from !in models || e.to !in models {
        continue;
      }
      var source := Endpoint(regions, owner, e.from);
      var target := Endpoint(regions, owner, e.to);
      if source == target && (source != e.from || target != e.to) {
        continue;
      }
      elements := elements + [EdgeElement("e" + e.id, e.id, e.model, source, target, e.from == e.to)];
    }
    assert edges[..|edges|] == edges;
  }

  /** The data branch of graphElements. */
  method Render(nodes: seq<Node>, edges: seq<Edge>, regions: seq<Region>, owner: map<string, string>)
    returns (elements: seq<Element>)
    requires Fits(nodes, regions, owner)
    ensures elements == Elements(nodes, edges, regions, owner)
  {
    var byId := IndexRegions(regions);
    var models := IndexNodes(nodes);
    elements := PushRegions(models, regions);
    elements := PushNodes(elements, byId, owner, nodes);
    elements := PushEdges(elements, models, byId, owner, edges);
  }

  /** Every map that Build computes from a snapshot fits that snapshot. */
  lemma MapFits(locale: Order, units: Order, nodes: seq<Node>, edges: seq<Edge>, rules: map<string, Rule>)
    requires StrictTotal(locale) && StrictTotal(units)
    ensures var m := MapOf(locale, units, nodes, edges, rules); Fits(nodes, m.regions, m.owner)
  {
    var cands := CandidatesOf(locale, nodes, edges, rules);
    AssignAllOwned(locale, units, cands, Sorted(locale, cands.Keys), NodeModels(nodes).Keys);
    CandidatesAreNodes(NodeModels(nodes), InOrder(rules, Sorted(locale, rules.Keys)), edges);
    hide StrictTotal, Owned, Fits, AssignAll, Sorted;
    OwnedFits(locale, cands, nodes, Sorted(locale, cands.Keys), MapOf(locale, units, nodes, edges, rules));
  }

  lemma OwnedFits(locale: Order, cands: Candidates, nodes: seq<Node>, done: seq<string>, m: Assigned)
    requires Owned(locale, cands, NodeModels(nodes).Keys, done, m)
    requires forall a :: a in cands ==> a in NodeModels(nodes) && cands[a].children <= NodeModels(nodes).Keys
    ensures Fits(nodes, m.regions, m.owner)
  {
    hide LeastOwns, NoDup, NodeModels;
    forall r | r in m.regions
      ensures "visual-container:" <= r.id && r.id !in NodeModels(nodes)
    {
      var i :| 0 <= i < |m.regions| && m.regions[i] == r;
    }
  }

  // ------------------------------------------------------------- contraction

  lemma {:induction false} RegionsByIdExact(regions: seq<Region>)
    requires forall i, j :: 0 <= i < j < |regions| ==> regions[i].id != regions[j].id
    ensures forall r :: r in regions ==> r.id in RegionsById(regions) && RegionsById(regions)[r.id] == r
    ensures forall id :: id in RegionsById(regions) ==> RegionsById(regions)[id] in regions && RegionsById(regions)[id].id == id
  {
    if regions != [] {
      var init := regions[..|regions| - 1];
      RegionsByIdExact(init);
      forall r | r in regions
        ensures r.id in RegionsById(regions) && RegionsById(regions)[r.id] == r
      {
        if r != regions[|regions| - 1] {
          assert r in init;
          var i :| 0 <= i < |init| && init[i] == r;
        }
      }
    }
  }

  /** `x` lies in the collapsed region `r`. */
  predicate InCollapsed(regions: seq<Region>, r: Region, x: string)
  {
    r in regions && r.collapsed && InRegion(x, r)
  }

  /** `y` stands for the node `x` in the drawing: its collapsed region if it has one, else itself. */
  ghost predicate StandsFor(regions: seq<Region>, x: string, y: string)
  {
    if exists r :: InCollapsed(regions, r, x) then exists r :: InCollapsed(regions, r, x) && y == r.id else y == x
  }

  /** Both ends in one collapsed region. */
  ghost predicate Internal(regions: seq<Region>, e: Edge)
  {
    exists r :: InCollapsed(regions, r, e.from) && InCollapsed(regions, r, e.to)
  }

  lemma HiddenExact(nodes: seq<Node>, regions: seq<Region>, owner: map<string, string>, x: string)
    requires Fits(nodes, regions, owner)
    ensures Hidden(RegionsById(regions), owner, x) <==> exists r :: InCollapsed(regions, r, x)
    ensures forall r :: InCollapsed(regions, r, x) ==> Endpoint(RegionsById(regions), owner, x) == r.id
  {
    RegionsByIdExact(regions);
    if Hidden(RegionsById(regions), owner, x) {
      var r :| r in regions && InRegion(x, r);
      assert InCollapsed(regions, r, x);
    }
  }

  lemma EndpointStandsFor(nodes: seq<Node>, regions: seq<Region>, owner: map<string, string>, x: string)
    requires Fits(nodes, regions, owner)
    ensures StandsFor(regions, x, Endpoint(RegionsById(regions), owner, x))
  {
    HiddenExact(nodes, regions, owner, x);
  }

  /** Exactly the edges with an unknown end or inside one collapsed region are dropped. */
  lemma SkippedExact(nodes: seq<Node>, regions: seq<Region>, owner: map<string, string>, e: Edge)
    requires Fits(nodes, regions, owner)
    ensures Skipped(NodeModels(nodes), RegionsById(regions), owner, e)
            <==> e.from !in NodeModels(nodes) || e.to !in NodeModels(nodes) || Internal(regions, e)
  {
    var models := NodeModels(nodes);
    HiddenExact(nodes, regions, owner, e.from);
    HiddenExact(nodes, regions, owner, e.to);
    RegionsByIdExact(regions);
    hide NodeModels, RegionsById, Hidden;
    var source, target := Endpoint(RegionsById(regions), owner, e.from), Endpoint(RegionsById(regions), owner, e.to);
    if e.from in models && e.to in models {
      if Internal(regions, e) {
        var r :| InCollapsed(regions, r, e.from) && InCollapsed(regions, r, e.to);
        assert source == r.id == target;
      }
    }
  }

  ghost predicate Kept(nodes: seq<Node>, regions: seq<Region>, e: Edge)
  {
    e.from in NodeModels(nodes) && e.to in NodeModels(nodes) && !Internal(regions, e)
  }

  /** The kept edges, in snapshot order. */
  ghost function KeptEdges(nodes: seq<Node>, regions: seq<Region>, edges: seq<Edge>): seq<Edge>
  {
    if edges == [] then []
    else
      KeptEdges(nodes, regions, edges[..|edges| - 1])
        + (if Kept(nodes, regions, edges[|edges| - 1]) then [edges[|edges| - 1]] else [])
  }

  /** The element of an edge carries its identity, and joins what stands for its ends. */
  ghost predicate Draws(regions: seq<Region>, e: Edge, d: Element)
  {
    && d.EdgeElement? && d.id == "e" + e.id && d.sourceId == e.id && d.model == e.model
    && StandsFor(regions, e.from, d.source) && StandsFor(regions, e.to, d.target)
    && (d.selfLoop <==> e.from == e.to)
  }

  /** Edges are conserved: the kept ones are drawn, each once, in order, and nothing else is. */
  lemma {:induction false} EdgesConserved(nodes: seq<Node>, edges: seq<Edge>, regions: seq<Region>, owner: map<string, string>)
    requires Fits(nodes, regions, owner)
    ensures var drawn := EdgeElements(NodeModels(nodes), RegionsById(regions), owner, edges);
            var kept := KeptEdges(nodes, regions, edges);
            |drawn| == |kept| && forall i :: 0 <= i < |kept| ==> Draws(regions, kept[i], drawn[i])
  {
    if edges != [] {
      var e := edges[|edges| - 1];
      EdgesConserved(nodes, edges[..|edges| - 1], regions, owner);
      SkippedExact(nodes, regions, owner, e);
      EndpointStandsFor(nodes, regions, owner, e.from);
      EndpointStandsFor(nodes, regions, owner, e.to);
      hide Skipped, Fits, StandsFor, Internal, Endpoint, NodeModels, RegionsById;
    }
  }

  /** The nodes in no collapsed region, in snapshot order. */
  ghost function ShownNodes(regions: seq<Region>, nodes: seq<Node>): seq<Node>
  {
    if nodes == [] then []
    else
      var n := nodes[|nodes| - 1];
      ShownNodes(regions, nodes[..|nodes| - 1]) + (if exists r :: InCollapsed(regions, r, n.id) then [] else [n])
  }

  /** The element of a node carries its identity and model, inside the open region that has it if there is one. */
  ghost predicate DrawsNode(regions: seq<Region>, n: Node, d: Element)
  {
    && d.NodeElement? && d.id == n.id && d.model == n.model
    && (d.parent.None? ==> forall r :: r in regions ==> !InRegion(n.id, r))
    && (d.parent.Some? ==> exists r :: r in regions && InRegion(n.id, r) && d.parent.value == r.id)
  }

  /** Nodes are conserved too: those in no collapsed region are drawn, each once, in order. */
  lemma {:induction false} NodesConserved(nodes: seq<Node>, all: seq<Node>, regions: seq<Region>, owner: map<string, string>)
    requires Fits(all, regions, owner)
    ensures var drawn, shown := NodeElements(RegionsById(regions), owner, nodes), ShownNodes(regions, nodes);
            |drawn| == |shown| && forall i :: 0 <= i < |shown| ==> DrawsNode(regions, shown[i], drawn[i])
  {
    if nodes != [] {
      var n := nodes[|nodes| - 1];
      NodesConserved(nodes[..|nodes| - 1], all, regions, owner);
      HiddenExact(all, regions, owner, n.id);
      NodeDrawn(all, regions, owner, n);
      hide Fits, InCollapsed, DrawsNode, RegionsById, NodeElementOf, Hidden;
    }
  }

  lemma NodeDrawn(all: seq<Node>, regions: seq<Region>, owner: map<string, string>, n: Node)
    requires Fits(all, regions, owner)
    ensures DrawsNode(regions, n, NodeElementOf(owner, n))
  {
    hide NodeModels;
  }

  /** Each region is drawn once, in order, with its anchor's model. */
  lemma RegionsConserved(nodes: seq<Node>, regions: seq<Region>, owner: map<string, string>)
    requires Fits(nodes, regions, owner)
    ensures var drawn := RegionElements(NodeModels(nodes), regions);
            |drawn| == |regions| && forall i :: 0 <= i < |regions| ==>
              && drawn[i].RegionElement? && drawn[i].id == regions[i].id && drawn[i].anchorId == regions[i].anchorId
              && drawn[i].collapsed == regions[i].collapsed && IsOf(nodes, regions[i].anchorId, drawn[i].model)
  {
    var drawn := RegionElements(NodeModels(nodes), regions);
    RegionsDrawn(NodeModels(nodes), regions);
    hide IsOf, RegionElements, NodeModels;
    forall i | 0 <= i < |regions|
      ensures IsOf(nodes, regions[i].anchorId, drawn[i].model)
    {
      assert regions[i] in regions;
      NodeModelsExactly(nodes, regions[i].anchorId, drawn[i].model);
    }
  }

  /** Nothing is dropped or invented when no region is collapsed. */
  lemma {:induction false} KeptAll(nodes: seq<Node>, regions: seq<Region>, edges: seq<Edge>)
    requires forall r :: r in regions ==> !r.collapsed
    requires forall e :: e in edges ==> e.from in NodeModels(nodes) && e.to in NodeModels(nodes)
    ensures KeptEdges(nodes, regions, edges) == edges
  {
    if edges != [] {
      KeptAll(nodes, regions, edges[..|edges| - 1]);
      assert !Internal(regions, edges[|edges| - 1]);
    }
  }

  // ---------------------------------------------------------- well-formedness

  /** An element other than an edge has this id. */
  ghost predicate DrawnNode(elements: seq<Element>, id: string)
  {
    exists d :: d in elements && !d.EdgeElement? && d.id == id
  }

  lemma {:induction false} RegionsDrawn(models: map<string, string>, regions: seq<Region>)
    requires forall r :: r in regions ==> r.anchorId in models
    ensures |RegionElements(models, regions)| == |regions|
    ensures forall i :: 0 <= i < |regions| ==>
              RegionElements(models, regions)[i]
              == RegionElement(regions[i].id, regions[i].anchorId, models[regions[i].anchorId], regions[i].collapsed)
  {
    if regions != [] {
      RegionsDrawn(models, regions[..|regions| - 1]);
    }
  }

  lemma {:induction false} NodesDrawn(regions: map<string, Region>, owner: map<string, string>, nodes: seq<Node>)
    ensures forall n :: n in nodes && !Hidden(regions, owner, n.id) ==> NodeElementOf(owner, n) in NodeElements(regions, owner, nodes)
    ensures forall d :: d in NodeElements(regions, owner, nodes) ==>
              exists n :: n in nodes && !Hidden(regions, owner, n.id) && d == NodeElementOf(owner, n)
  {
    if nodes != [] {
      hide Hidden;
      var init, n := nodes[..|nodes| - 1], nodes[|nodes| - 1];
      NodesDrawn(regions, owner, init);
      assert nodes == init + [n];
      hide NodeElementOf;
      forall d | d in NodeElements(regions, owner, nodes)
        ensures exists m :: m in nodes && !Hidden(regions, owner, m.id) && d == NodeElementOf(owner, m)
      {
        if d in NodeElements(regions, owner, init) {
          var m :| m in init && !Hidden(regions, owner, m.id) && d == NodeElementOf(owner, m);
          assert m in nodes;
        } else {
          assert n in nodes;
        }
      }
    }
  }

  lemma {:induction false} ModelsAreNodes(nodes: seq<Node>, x: string)
    ensures x in NodeModels(nodes) <==> exists n :: n in nodes && n.id == x
  {
    if nodes != [] {
      var init, last := nodes[..|nodes| - 1], nodes[|nodes| - 1];
      ModelsAreNodes(init, x);
      assert nodes == init + [last];
      if x == last.id {
        assert last in nodes;
      }
    }
  }

  /** What stands for a node of the snapshot is drawn: the node itself, or its collapsed region. */
  lemma NodesRepresented(nodes: seq<Node>, edges: seq<Edge>, regions: seq<Region>, owner: map<string, string>, x: string)
    requires Fits(nodes, regions, owner) && x in NodeModels(nodes)
    ensures DrawnNode(Elements(nodes, edges, regions, owner), Endpoint(RegionsById(regions), owner, x))
  {
    var byId := RegionsById(regions);
    var elements := Elements(nodes, edges, regions, owner);
    RegionsByIdExact(regions);
    RegionsDrawn(NodeModels(nodes), regions);
    NodesDrawn(byId, owner, nodes);
    ModelsAreNodes(nodes, x);
    hide RegionElements, NodeElements, EdgeElements, NodeModels, RegionsById;
    if Hidden(byId, owner, x) {
      var i :| 0 <= i < |regions| && regions[i] == byId[owner[x]];
      assert elements[i].id == owner[x] && elements[i] in elements;
    } else {
      var n :| n in nodes && n.id == x;
      assert NodeElementOf(owner, n) in elements;
    }
  }

  lemma {:induction false} EdgeElementsFrom(
      models: map<string, string>, regions: map<string, Region>, owner: map<string, string>, edges: seq<Edge>)
    ensures forall d :: d in EdgeElements(models, regions, owner, edges) ==>
              exists e :: e in edges && !Skipped(models, regions, owner, e) && d == EdgeElementOf(regions, owner, e)
  {
    if edges != [] {
      hide Skipped;
      var init, last := edges[..|edges| - 1], edges[|edges| - 1];
      EdgeElementsFrom(models, regions, owner, init);
      assert edges == init + [last];
      hide EdgeElementOf;
      forall d | d in EdgeElements(models, regions, owner, edges)
        ensures exists e :: e in edges && !Skipped(models, regions, owner, e) && d == EdgeElementOf(regions, owner, e)
      {
        if d in EdgeElements(models, regions, owner, init) {
          var e :| e in init && !Skipped(models, regions, owner, e) && d == EdgeElementOf(regions, owner, e);
          assert e in edges;
        } else {
          assert last in edges;
        }
      }
    }
  }

  lemma EdgeEndsDrawn(nodes: seq<Node>, edges: seq<Edge>, regions: seq<Region>, owner: map<string, string>, d: Element)
    requires Fits(nodes, regions, owner) && d in Elements(nodes, edges, regions, owner) && d.EdgeElement?
    ensures var elements := Elements(nodes, edges, regions, owner);
            DrawnNode(elements, d.source) && DrawnNode(elements, d.target)
  {
    var byId := RegionsById(regions);
    RegionsDrawn(NodeModels(nodes), regions);
    NodesDrawn(byId, owner, nodes);
    EdgeElementsFrom(NodeModels(nodes), byId, owner, edges);
    hide RegionElements, NodeElements, EdgeElements, NodeModels, RegionsById, DrawnNode, Fits;
    assert d in EdgeElements(NodeModels(nodes), byId, owner, edges);
    var e :| e in edges && !Skipped(NodeModels(nodes), byId, owner, e) && d == EdgeElementOf(byId, owner, e);
    NodesRepresented(nodes, edges, regions, owner, e.from);
    NodesRepresented(nodes, edges, regions, owner, e.to);
  }

  lemma OwnerIsRegion(nodes: seq<Node>, regions: seq<Region>, owner: map<string, string>, x: string) returns (i: nat)
    requires Fits(nodes, regions, owner) && x in owner
    ensures i < |regions| && regions[i].id == owner[x]
  {
    var r :| r in regions && InRegion(x, r);
    i :| 0 <= i < |regions| && regions[i] == r;
  }

  lemma ParentOpen(nodes: seq<Node>, edges: seq<Edge>, regions: seq<Region>, owner: map<string, string>, d: Element)
    requires Fits(nodes, regions, owner) && d in Elements(nodes, edges, regions, owner) && d.NodeElement? && d.parent.Some?
    ensures exists q :: q in Elements(nodes, edges, regions, owner) && q.RegionElement? && !q.collapsed && q.id == d.parent.value
  {
    var byId := RegionsById(regions);
    var elements := Elements(nodes, edges, regions, owner);
    RegionsByIdExact(regions);
    RegionsDrawn(NodeModels(nodes), regions);
    NodesDrawn(byId, owner, nodes);
    EdgeElementsFrom(NodeModels(nodes), byId, owner, edges);
    hide RegionElements, NodeElements, EdgeElements, NodeModels, RegionsById, InRegion;
    assert d in NodeElements(byId, owner, nodes);
    var n :| n in nodes && !Hidden(byId, owner, n.id) && d == NodeElementOf(owner, n);
    var i := OwnerIsRegion(nodes, regions, owner, n.id);
    hide Fits;
    assert regions[i] in regions && elements[i].id == regions[i].id && elements[i] in elements;
  }

  /** No dangling edge and no dangling parent: every reference is to a drawn element. */
  lemma QuotientWellFormed(nodes: seq<Node>, edges: seq<Edge>, regions: seq<Region>, owner: map<string, string>)
    requires Fits(nodes, regions, owner)
    ensures var elements := Elements(nodes, edges, regions, owner);
            forall d :: d in elements ==>
              && (d.EdgeElement? ==> DrawnNode(elements, d.source) && DrawnNode(elements, d.target))
              && (d.NodeElement? && d.parent.Some? ==>
                    exists q :: q in elements && q.RegionElement? && !q.collapsed && q.id == d.parent.value)
  {
    hide Elements, DrawnNode;
    var elements := Elements(nodes, edges, regions, owner);
    forall d | d in elements
      ensures d.EdgeElement? ==> DrawnNode(elements, d.source) && DrawnNode(elements, d.target)
      ensures d.NodeElement? && d.parent.Some? ==>
                exists q :: q in elements && q.RegionElement? && !q.collapsed && q.id == d.parent.value
    {
      if d.EdgeElement? {
        EdgeEndsDrawn(nodes, edges, regions, owner, d);
      } else if d.NodeElement? && d.parent.Some? {
        ParentOpen(nodes, edges, regions, owner, d);
      }
    }
  }

  // ---------------------------------------------------------------- unique ids

  ghost predicate UniqueIds(elements: seq<Element>)
  {
    forall i, j :: 0 <= i < j < |elements| ==> elements[i].id != elements[j].id
  }

  ghost predicate Apart(a: seq<Element>, b: seq<Element>)
  {
    forall x, y :: x in a && y in b ==> x.id != y.id
  }

  lemma UniqueConcat(a: seq<Element>, b: seq<Element>)
    ensures UniqueIds(a + b) <==> UniqueIds(a) && UniqueIds(b) && Apart(a, b)
  {
    var c := a + b;
    if UniqueIds(c) {
      forall i, j | 0 <= i < j < |a|
        ensures a[i].id != a[j].id
      {
        assert c[i].id != c[j].id;
      }
      forall i, j | 0 <= i < j < |b|
        ensures b[i].id != b[j].id
      {
        assert c[|a| + i].id != c[|a| + j].id;
      }
      forall x, y | x in a && y in b
        ensures x.id != y.id
      {
        var i :| 0 <= i < |a| && a[i] == x;
        var j :| 0 <= j < |b| && b[j] == y;
        assert c[i].id != c[|a| + j].id;
      }
    }
  }

  lemma {:induction false} NodeElementsUnique(regions: map<string, Region>, owner: map<string, string>, nodes: seq<Node>)
    requires forall i, j :: 0 <= i < j < |nodes| ==> nodes[i].id != nodes[j].id
    ensures UniqueIds(NodeElements(regions, owner, nodes))
  {
    if nodes != [] {
      var init, n := nodes[..|nodes| - 1], nodes[|nodes| - 1];
      NodeElementsUnique(regions, owner, init);
      NodesDrawn(regions, owner, init);
      hide Hidden;
      UniqueConcat(NodeElements(regions, owner, init), [NodeElementOf(owner, n)]);
      assert NodeElements(regions, owner, init) + [] == NodeElements(regions, owner, init);
    }
  }

  lemma {:induction false} EdgeElementsUnique(
      models: map<string, string>, regions: map<string, Region>, owner: map<string, string>, edges: seq<Edge>)
    requires forall i, j :: 0 <= i < j < |edges| ==> edges[i].id != edges[j].id
    ensures UniqueIds(EdgeElements(models, regions, owner, edges))
  {
    if edges != [] {
      var init, e := edges[..|edges| - 1], edges[|edges| - 1];
      EdgeElementsUnique(models, regions, owner, init);
      EdgeElementsFrom(models, regions, owner, init);
      hide Skipped;
      UniqueConcat(EdgeElements(models, regions, owner, init), [EdgeElementOf(regions, owner, e)]);
      assert EdgeElements(models, regions, owner, init) + [] == EdgeElements(models, regions, owner, init);
      forall d | d in EdgeElements(models, regions, owner, init)
        ensures d.id != "e" + e.id
      {
        var q :| q in init && !Skipped(models, regions, owner, q) && d == EdgeElementOf(regions, owner, q);
        SameTail("e", q.id, e.id);
      }
    }
  }

  lemma SameTail(p: string, a: string, b: string)
    ensures p + a == p + b <==> a == b
  {
    if p + a == p + b {
      DropPrefix(p, a);
      DropPrefix(p, b);
    }
  }

  lemma {:induction false} EdgesDrawn(
      models: map<string, string>, regions: map<string, Region>, owner: map<string, string>, edges: seq<Edge>)
    ensures forall e :: e in edges && !Skipped(models, regions, owner, e) ==>
              EdgeElementOf(regions, owner, e) in EdgeElements(models, regions, owner, edges)
  {
    if edges != [] {
      hide Skipped, EdgeElementOf;
      EdgesDrawn(models, regions, owner, edges[..|edges| - 1]);
      assert edges == edges[..|edges| - 1] + [edges[|edges| - 1]];
    }
  }

  /** A shown node has the id that the drawing gives to a shown edge. */
  ghost predicate NodeEdgeClash(nodes: seq<Node>, regions: seq<Region>, n: Node, e: Edge)
  {
    && n in nodes && !(exists r :: InCollapsed(regions, r, n.id))
    && Kept(nodes, regions, e) && n.id == "e" + e.id
  }

  lemma NodesApartEdges(nodes: seq<Node>, edges: seq<Edge>, regions: seq<Region>, owner: map<string, string>)
    requires Fits(nodes, regions, owner)
    ensures Apart(NodeElements(RegionsById(regions), owner, nodes), EdgeElements(NodeModels(nodes), RegionsById(regions), owner, edges))
            <==> !exists n, e :: e in edges && NodeEdgeClash(nodes, regions, n, e)
  {
    var byId, models := RegionsById(regions), NodeModels(nodes);
    NodesDrawn(byId, owner, nodes);
    EdgesDrawn(models, byId, owner, edges);
    EdgeElementsFrom(models, byId, owner, edges);
    forall x: string
      ensures Hidden(byId, owner, x) <==> exists r :: InCollapsed(regions, r, x)
    {
      HiddenExact(nodes, regions, owner, x);
    }
    forall e | e in edges
      ensures Skipped(models, byId, owner, e) <==> !Kept(nodes, regions, e)
    {
      SkippedExact(nodes, regions, owner, e);
    }
    hide Hidden, Skipped, Kept, InCollapsed, NodeModels, RegionsById, NodeElements, EdgeElements, Endpoint;
    var shown, drawn := NodeElements(byId, owner, nodes), EdgeElements(models, byId, owner, edges);
    if n, e :| e in edges && NodeEdgeClash(nodes, regions, n, e) {
      assert NodeElementOf(owner, n) in shown && EdgeElementOf(byId, owner, e) in drawn;
      assert !Apart(shown, drawn);
    }
    if !Apart(shown, drawn) {
      var x, y :| x in shown && y in drawn && x.id == y.id;
      var n :| n in nodes && !Hidden(byId, owner, n.id) && x == NodeElementOf(owner, n);
      var e :| e in edges && !Skipped(models, byId, owner, e) && y == EdgeElementOf(byId, owner, e);
      assert NodeEdgeClash(nodes, regions, n, e);
    }
  }

  /**
   The drawing's ids are unique exactly when no shown node is named like a shown edge's element.
   The source prefixes edge ids with a letter that node ids may also start with.
   */
  lemma ElementIdsUnique(nodes: seq<Node>, edges: seq<Edge>, regions: seq<Region>, owner: map<string, string>)
    requires Fits(nodes, regions, owner)
    requires forall i, j :: 0 <= i < j < |nodes| ==> nodes[i].id != nodes[j].id
    requires forall i, j :: 0 <= i < j < |edges| ==> edges[i].id != edges[j].id
    ensures UniqueIds(Elements(nodes, edges, regions, owner))
            <==> !exists n, e :: e in edges && NodeEdgeClash(nodes, regions, n, e)
  {
    var byId, models := RegionsById(regions), NodeModels(nodes);
    var boxes, shown, drawn := RegionElements(models, regions), NodeElements(byId, owner, nodes), EdgeElements(models, byId, owner, edges);
    RegionsDrawn(models, regions);
    assert UniqueIds(boxes);
    NodeElementsUnique(byId, owner, nodes);
    EdgeElementsUnique(models, byId, owner, edges);
    UniqueConcat(boxes + shown, drawn);
    UniqueConcat(boxes, shown);
    NodesApartEdges(nodes, edges, regions, owner);
    BoxesApart(nodes, edges, regions, owner);
    hide RegionElements, NodeElements, EdgeElements, NodeModels, RegionsById, NodeEdgeClash, Fits, UniqueIds;
  }

  lemma BoxesApart(nodes: seq<Node>, edges: seq<Edge>, regions: seq<Region>, owner: map<string, string>)
    requires Fits(nodes, regions, owner)
    ensures var boxes := RegionElements(NodeModels(nodes), regions);
            && Apart(boxes, NodeElements(RegionsById(regions), owner, nodes))
            && Apart(boxes, EdgeElements(NodeModels(nodes), RegionsById(regions), owner, edges))
  {
    var byId, models := RegionsById(regions), NodeModels(nodes);
    RegionsDrawn(models, regions);
    NodesDrawn(byId, owner, nodes);
    EdgeElementsFrom(models, byId, owner, edges);
    forall n | n in nodes
      ensures n.id in models
    {
      ModelsAreNodes(nodes, n.id);
    }
    hide RegionElements, NodeElements, EdgeElements, NodeModels, RegionsById, Hidden, Skipped;
    forall x | x in RegionElements(models, regions)
      ensures x.id !in models && |x.id| > 0 && x.id[0] == 'v'
    {
      var i :| 0 <= i < |regions| && RegionElements(models, regions)[i] == x;
      assert regions[i] in regions;
      assert "visual-container:" <= x.id;
    }
    forall y | y in EdgeElements(models, byId, owner, edges)
      ensures y.id[0] == 'e'
    {
    }
  }

  /** A node named like an edge's element: both are drawn, under one id. */
  lemma ElementIdsCollide()
    ensures var nodes, edges := [Node("a", "M"), Node("e1", "M")], [Edge("1", "L", "a", "e1")];
            Fits(nodes, [], map[]) && !UniqueIds(Elements(nodes, edges, [], map[]))
  {
    hide NodeModels, RegionElements, NodeElements, EdgeElements, UniqueIds, RegionsById;
    var nodes, edges := [Node("a", "M"), Node("e1", "M")], [Edge("1", "L", "a", "e1")];
    ModelsAreNodes(nodes, "a");
    ModelsAreNodes(nodes, "e1");
    assert nodes[0] in nodes && nodes[1] in nodes;
    ElementIdsUnique(nodes, edges, [], map[]);
    assert NodeEdgeClash(nodes, [], nodes[1], edges[0]);
  }
}
