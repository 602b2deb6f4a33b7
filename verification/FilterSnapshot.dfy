/**
 The local snapshot filter (filterSnapshot and matchesGraphItem in grm-flight-deck/src/api.ts).
 Trimming, lower-casing and JSON rendering are parameters.
 */
module FilterSnapshot {
  import opened Prelude

  /** Property values by name; a value is kept as the JSON text of the property. */
  type Props = map<string, string>

  datatype Node = Node(id: string, model: string, caption: string, props: Props)

  datatype Edge = Edge(id: string, model: string, from: string, to: string, props: Props)

  datatype Field = Field(name: string, valueType: string, required: bool)

  datatype NodeModel = NodeModel(name: string, idField: string, fields: seq<Field>)

  datatype EdgeModel = EdgeModel(name: string, fromModel: string, toModel: string, idField: string, fields: seq<Field>)

  datatype SchemaEdge = SchemaEdge(model: string, fromModel: string, toModel: string)

  datatype Snapshot = Snapshot(
    workspace: string,
    nodeModels: seq<string>,
    edgeModels: seq<string>,
    schemaNodeModels: Option<seq<NodeModel>>,
    schemaEdgeModels: Option<seq<EdgeModel>>,
    schemaEdges: Option<seq<SchemaEdge>>,
    nodes: seq<Node>,
    edges: seq<Edge>,
    modelLimit: nat,
    omittedEdges: nat,
    source: string,
    partialReason: Option<string>)

  datatype Filter = Filter(text: string, model: string, propertyKey: string, propertyValue: string)

  /** The string functions of the host language. */
  datatype Host = Host(
    Trim: string -> string,
    Lower: string -> string,
    RenderProps: Props -> string,
    RenderValue: string -> string)

  predicate Includes(haystack: string, needle: string)
  {
    needle <= haystack || (haystack != "" && Includes(haystack[1..], needle))
  }

  predicate MatchesGraphItem(
      host: Host, id: string, model: string, caption: string, props: Props, text: string, propertyKey: string, propertyValue: string)
  {
    && (text != "" ==> Includes(host.Lower(id + " " + model + " " + caption + " " + host.RenderProps(props)), text))
    && (propertyKey != "" ==>
          && propertyKey in props
          && (propertyValue != "" ==> Includes(host.Lower(host.RenderValue(props[propertyKey])), propertyValue)))
  }

  /** The filter with its fields trimmed, the searched texts lower-cased. */
  function Normal(host: Host, f: Filter): Filter
  {
    Filter(host.Lower(host.Trim(f.text)), host.Trim(f.model), host.Trim(f.propertyKey), host.Lower(host.Trim(f.propertyValue)))
  }

  predicate NodeMatches(host: Host, f: Filter, n: Node)
  {
    (f.model == "" || n.model == f.model)
    && MatchesGraphItem(host, n.id, n.model, n.caption, n.props, f.text, f.propertyKey, f.propertyValue)
  }

  predicate EdgeMatches(host: Host, f: Filter, e: Edge)
  {
    (f.model == "" || e.model == f.model)
    && MatchesGraphItem(host, e.id, e.model, e.model, e.props, f.text, f.propertyKey, f.propertyValue)
  }

  // ------------------------------------------------------------- sub-sequences

  function Keep<T>(s: seq<T>, p: T -> bool): seq<T>
  {
    if s == [] then [] else Keep(s[..|s| - 1], p) + (if p(s[|s| - 1]) then [s[|s| - 1]] else [])
  }

  lemma {:induction false} KeepExact<T>(s: seq<T>, p: T -> bool)
    ensures forall x :: x in Keep(s, p) <==> x in s && p(x)
  {
    if s != [] {
      KeepExact(s[..|s| - 1], p);
      assert s == s[..|s| - 1] + [s[|s| - 1]];
    }
  }

  lemma {:induction false} KeepSnoc<T>(s: seq<T>, x: T, p: T -> bool)
    ensures Keep(s + [x], p) == Keep(s, p) + (if p(x) then [x] else [])
  {
    assert (s + [x])[..|s|] == s;
  }

  /** Keeping a narrower class after a wider one is keeping the narrower one. */
  lemma {:induction false} KeepNarrower<T>(s: seq<T>, wide: T -> bool, narrow: T -> bool)
    requires forall x :: x in s && narrow(x) ==> wide(x)
    ensures Keep(Keep(s, wide), narrow) == Keep(s, narrow)
  {
    if s != [] {
      var init, last := s[..|s| - 1], s[|s| - 1];
      KeepNarrower(init, wide, narrow);
      if wide(last) {
        KeepSnoc(Keep(init, wide), last, narrow);
      } else {
        assert Keep(s, wide) == Keep(init, wide);
      }
    }
  }

  lemma {:induction false} KeepSame<T>(s: seq<T>, p: T -> bool, q: T -> bool)
    requires forall x :: x in s ==> (p(x) <==> q(x))
    ensures Keep(s, p) == Keep(s, q)
  {
    if s != [] {
      KeepSame(s[..|s| - 1], p, q);
    }
  }

  /** `sub` is `s` with some elements left out. */
  ghost predicate Subsequence<T>(sub: seq<T>, s: seq<T>)
  {
    if sub == [] then true
    else if s == [] then false
    else if sub[|sub| - 1] == s[|s| - 1] then Subsequence(sub[..|sub| - 1], s[..|s| - 1])
    else Subsequence(sub, s[..|s| - 1])
  }

  lemma {:induction false} SubsequenceRefl<T>(s: seq<T>)
    ensures Subsequence(s, s)
  {
    if s != [] {
      SubsequenceRefl(s[..|s| - 1]);
    }
  }

  lemma {:induction false} SubsequenceDropLast<T>(sub: seq<T>, s: seq<T>)
    requires Subsequence(sub, s) && sub != []
    ensures Subsequence(sub[..|sub| - 1], s)
    decreases |s|
  {
    var shorter := sub[..|sub| - 1];
    if sub[|sub| - 1] == s[|s| - 1] {
      if shorter != [] && shorter[|shorter| - 1] == s[|s| - 1] {
        SubsequenceDropLast(shorter, s[..|s| - 1]);
      }
    } else {
      SubsequenceDropLast(sub, s[..|s| - 1]);
      if shorter != [] && shorter[|shorter| - 1] == s[|s| - 1] {
        SubsequenceDropLast(shorter, s[..|s| - 1]);
      }
    }
  }

  lemma {:induction false} KeepIsSubsequence<T>(s: seq<T>, p: T -> bool)
    ensures Subsequence(Keep(s, p), s)
  {
    if s != [] {
      var init, last := s[..|s| - 1], s[|s| - 1];
      var sub := Keep(init, p);
      KeepIsSubsequence(init, p);
      if p(last) {
        assert (sub + [last])[..|sub|] == sub;
      } else {
        assert Keep(s, p) == sub;
        if sub != [] && sub[|sub| - 1] == last {
          SubsequenceDropLast(sub, init);
        }
      }
    }
  }

  // -------------------------------------------------------------------- filter

  function MatchedIds(host: Host, f: Filter, nodes: seq<Node>): set<string>
  {
    set n | n in nodes && NodeMatches(host, f, n) :: n.id
  }

  predicate EdgeKept(host: Host, f: Filter, matched: set<string>, e: Edge)
  {
    (e.from in matched && e.to in matched) || EdgeMatches(host, f, e)
  }

  function EndpointIds(edges: seq<Edge>): set<string>
  {
    (set e | e in edges :: e.from) + (set e | e in edges :: e.to)
  }

  function Matching(host: Host, f: Filter, nodes: seq<Node>): seq<Node>
  {
    Keep(nodes, n => NodeMatches(host, f, n))
  }

  function EdgesWithin(host: Host, f: Filter, matched: set<string>, edges: seq<Edge>): seq<Edge>
  {
    Keep(edges, e => EdgeKept(host, f, matched, e))
  }

  function WithIds(nodes: seq<Node>, ids: set<string>): seq<Node>
  {
    Keep(nodes, (n: Node) => n.id in ids)
  }

  function WithEither(nodes: seq<Node>, a: set<string>, b: set<string>): (r: seq<Node>)
    ensures r == WithIds(nodes, a + b)
  {
    KeepSame(nodes, (n: Node) => n.id in a || n.id in b, (n: Node) => n.id in a + b);
    Keep(nodes, (n: Node) => n.id in a || n.id in b)
  }

  function KeptEdges(host: Host, f: Filter, s: Snapshot): seq<Edge>
  {
    EdgesWithin(host, f, MatchedIds(host, f, s.nodes), s.edges)
  }

  function KeptNodes(host: Host, f: Filter, s: Snapshot): seq<Node>
  {
    WithIds(s.nodes, MatchedIds(host, f, s.nodes) + EndpointIds(KeptEdges(host, f, s)))
  }

  /** What filterSnapshot returns. */
  function Filtered(host: Host, s: Snapshot, filter: Filter): Snapshot
  {
    var f := Normal(host, filter);
    if f.text == "" && f.model == "" && f.propertyKey == "" && f.propertyValue == "" then s
    else s.(nodes := KeptNodes(host, f, s), edges := KeptEdges(host, f, s))
  }

  method CollectEndpoints(edgeMatches: seq<Edge>) returns (edgeEndpointIds: set<string>)
    ensures edgeEndpointIds == EndpointIds(edgeMatches)
  {
    hide EndpointIds;
    edgeEndpointIds := {};
    NoEndpoints();
    assert edgeMatches[..0] == [];
    for i := 0 to |edgeMatches|
      invariant edgeEndpointIds == EndpointIds(edgeMatches[..i])
    {
      EndpointIdsSnoc(edgeMatches[..i], edgeMatches[i]);
      assert edgeMatches[..i + 1] == edgeMatches[..i] + [edgeMatches[i]];
      edgeEndpointIds := edgeEndpointIds + {edgeMatches[i].from};
      edgeEndpointIds := edgeEndpointIds + {edgeMatches[i].to};
    }
    assert edgeMatches[..|edgeMatches|] == edgeMatches;
  }

  method Apply(host: Host, s: Snapshot, filter: Filter) returns (r: Snapshot)
    ensures r == Filtered(host, s, filter)
    // what is asked for is kept, with what joins it; a filter that asks for nothing keeps everything
    ensures !Active(host, filter) ==> r == s
    ensures Active(host, filter) ==> EdgesKeptExactly(host, filter, s, r.edges) && NodesKeptExactly(host, filter, s, r.edges, r.nodes)
  {
    FilterExact(host, s, filter);
    hide EdgesKeptExactly, NodesKeptExactly, Active;
    var f := Normal(host, filter);
    if f.text == "" && f.model == "" && f.propertyKey == "" && f.propertyValue == "" {
      return s;
    }
    hide EndpointIds, NodeMatches, Matching, MatchedIds, EdgesWithin, WithIds;
    var nodeMatches := Matching(host, f, s.nodes);
    var matchedNodeIds := set n | n in nodeMatches :: n.id;
    MatchedAre(host, f, s.nodes);
    var edgeMatches := EdgesWithin(host, f, matchedNodeIds, s.edges);
    var edgeEndpointIds := CollectEndpoints(edgeMatches);
    var nodes := WithEither(s.nodes, matchedNodeIds, edgeEndpointIds);
    r := s.(nodes := nodes, edges := edgeMatches);
  }

  lemma MatchedAre(host: Host, f: Filter, nodes: seq<Node>)
    ensures (set n | n in Matching(host, f, nodes) :: n.id) == MatchedIds(host, f, nodes)
  {
    hide NodeMatches;
    KeepExact(nodes, n => NodeMatches(host, f, n));
  }

  lemma NoEndpoints()
    ensures EndpointIds([]) == {}
  {
  }

  lemma EndpointIdsSnoc(edges: seq<Edge>, e: Edge)
    ensures EndpointIds(edges + [e]) == EndpointIds(edges) + {e.from} + {e.to}
  {
    forall x | x in edges + [e]
      ensures x in edges || x == e
    {
    }
    assert e in edges + [e];
  }

  // --------------------------------------------------------------- main results

  /** The filter only leaves nodes and edges out, keeping the order. */
  lemma FilterIsSubsequence(host: Host, s: Snapshot, filter: Filter)
    ensures Subsequence(Filtered(host, s, filter).nodes, s.nodes)
    ensures Subsequence(Filtered(host, s, filter).edges, s.edges)
  {
    var f := Normal(host, filter);
    var matched := MatchedIds(host, f, s.nodes);
    var ids := matched + EndpointIds(KeptEdges(host, f, s));
    SubsequenceRefl(s.nodes);
    SubsequenceRefl(s.edges);
    KeepIsSubsequence(s.edges, e => EdgeKept(host, f, matched, e));
    KeepIsSubsequence(s.nodes, (n: Node) => n.id in ids);
  }

  ghost predicate HasNode(s: Snapshot, id: string)
  {
    exists n :: n in s.nodes && n.id == id
  }

  ghost predicate Closed(s: Snapshot)
  {
    forall e :: e in s.edges ==> HasNode(s, e.from) && HasNode(s, e.to)
  }

  predicate OccursAt(haystack: string, needle: string, i: nat)
  {
    i + |needle| <= |haystack| && haystack[i..i + |needle|] == needle
  }

  ghost predicate Occurs(haystack: string, needle: string)
  {
    exists i :: OccursAt(haystack, needle, i)
  }

  lemma OccursTail(haystack: string, needle: string)
    requires haystack != ""
    ensures Occurs(haystack, needle) <==> needle <= haystack || Occurs(haystack[1..], needle)
  {
    if needle <= haystack {
      assert OccursAt(haystack, needle, 0);
    }
    if i: nat :| OccursAt(haystack[1..], needle, i) {
      assert haystack[1..][i..i + |needle|] == haystack[i + 1..i + 1 + |needle|];
      assert OccursAt(haystack, needle, i + 1);
    }
    if i: nat :| OccursAt(haystack, needle, i) {
      if i > 0 {
        assert haystack[1..][i - 1..i - 1 + |needle|] == haystack[i..i + |needle|];
        assert OccursAt(haystack[1..], needle, i - 1);
      }
    }
  }

  lemma {:induction false} IncludesExactly(haystack: string, needle: string)
    ensures Includes(haystack, needle) <==> Occurs(haystack, needle)
  {
    if haystack != "" {
      OccursTail(haystack, needle);
      hide Occurs;
      IncludesExactly(haystack[1..], needle);
    } else if needle == "" {
      assert OccursAt(haystack, needle, 0);
    }
  }

  /** The model is the one asked for, the text occurs in what describes the element, and the property is there with the value asked for in it. */
  ghost predicate Asked(host: Host, filter: Filter, id: string, model: string, caption: string, props: Props)
  {
    var key, text, value := host.Trim(filter.propertyKey), host.Lower(host.Trim(filter.text)), host.Lower(host.Trim(filter.propertyValue));
    && (host.Trim(filter.model) != "" ==> model == host.Trim(filter.model))
    && (text != "" ==> Occurs(host.Lower(id + " " + model + " " + caption + " " + host.RenderProps(props)), text))
    && (key != "" ==> key in props)
    && (key != "" && value != "" ==> Occurs(host.Lower(host.RenderValue(props[key])), value))
  }

  ghost predicate NodeAsked(host: Host, filter: Filter, n: Node)
  {
    Asked(host, filter, n.id, n.model, n.caption, n.props)
  }

  /** An edge has no caption but its model. */
  ghost predicate EdgeAsked(host: Host, filter: Filter, e: Edge)
  {
    Asked(host, filter, e.id, e.model, e.model, e.props)
  }

  ghost predicate IdAsked(host: Host, filter: Filter, nodes: seq<Node>, id: string)
  {
    exists m :: m in nodes && m.id == id && NodeAsked(host, filter, m)
  }

  /** Something is asked for. A value without a key counts, though nothing is looked up in it. */
  predicate Active(host: Host, filter: Filter)
  {
    || host.Lower(host.Trim(filter.text)) != "" || host.Trim(filter.model) != ""
    || host.Trim(filter.propertyKey) != "" || host.Lower(host.Trim(filter.propertyValue)) != ""
  }

  lemma MatchesAsked(host: Host, filter: Filter)
    ensures forall n :: NodeMatches(host, Normal(host, filter), n) <==> NodeAsked(host, filter, n)
    ensures forall e :: EdgeMatches(host, Normal(host, filter), e) <==> EdgeAsked(host, filter, e)
  {
    hide Includes, Occurs;
    forall h, n
      ensures Includes(h, n) <==> Occurs(h, n)
    {
      IncludesExactly(h, n);
    }
  }

  lemma {:induction false} KeepCounts<T>(s: seq<T>, p: T -> bool)
    ensures forall x :: multiset(Keep(s, p))[x] == if p(x) then multiset(s)[x] else 0
  {
    if s != [] {
      KeepCounts(s[..|s| - 1], p);
      assert s == s[..|s| - 1] + [s[|s| - 1]];
    }
  }

  /** Every edge asked for, or joining ids asked for, is kept as often as it is listed, and no other. */
  ghost predicate EdgesKeptExactly(host: Host, filter: Filter, s: Snapshot, edges: seq<Edge>)
  {
    forall e :: multiset(edges)[e] == if EdgeAsked(host, filter, e) || (IdAsked(host, filter, s.nodes, e.from) && IdAsked(host, filter, s.nodes, e.to))
                                      then multiset(s.edges)[e] else 0
  }

  /** Every node whose id is asked for or on a kept edge is kept as often as it is listed, and no other. */
  ghost predicate NodesKeptExactly(host: Host, filter: Filter, s: Snapshot, edges: seq<Edge>, nodes: seq<Node>)
  {
    forall n :: multiset(nodes)[n] == if IdAsked(host, filter, s.nodes, n.id) || (exists e :: e in edges && (e.from == n.id || e.to == n.id))
                                      then multiset(s.nodes)[n] else 0
  }

  /** What a filter keeps, in full; one that asks for nothing keeps everything. */
  lemma FilterExact(host: Host, s: Snapshot, filter: Filter)
    ensures var r := Filtered(host, s, filter);
            && r == s.(nodes := r.nodes, edges := r.edges)
            && (!Active(host, filter) ==> r == s)
            && (Active(host, filter) ==> EdgesKeptExactly(host, filter, s, r.edges) && NodesKeptExactly(host, filter, s, r.edges, r.nodes))
  {
    var f := Normal(host, filter);
    var matched := MatchedIds(host, f, s.nodes);
    var edges := KeptEdges(host, f, s);
    var ids := matched + EndpointIds(edges);
    MatchesAsked(host, filter);
    hide NodeMatches, EdgeMatches, NodeAsked, EdgeAsked, Keep, IdAsked;
    assert forall id :: id in matched <==> IdAsked(host, filter, s.nodes, id) by {
      MatchedAsked(host, filter, s.nodes);
    }
    KeepCounts(s.edges, e => EdgeKept(host, f, matched, e));
    KeepCounts(s.nodes, (n: Node) => n.id in ids);
  }

  lemma MatchedAsked(host: Host, filter: Filter, nodes: seq<Node>)
    ensures forall id :: id in MatchedIds(host, Normal(host, filter), nodes) <==> IdAsked(host, filter, nodes, id)
  {
    MatchesAsked(host, filter);
    hide NodeMatches, NodeAsked;
  }

  /** For example: a filter by model alone keeps, of a snapshot without edges, exactly the nodes of that model. */
  lemma ModelFilterExact(host: Host, s: Snapshot, filter: Filter)
    requires host.Trim(filter.model) != "" && host.Lower(host.Trim(filter.text)) == "" && host.Trim(filter.propertyKey) == ""
    requires s.edges == [] && forall a, b :: a in s.nodes && b in s.nodes && a.id == b.id ==> a == b
    ensures forall n :: n in Filtered(host, s, filter).nodes <==> n in s.nodes && n.model == host.Trim(filter.model)
  {
    FilterExact(host, s, filter);
    hide Filtered;
    var r := Filtered(host, s, filter);
    assert r.edges != [] ==> multiset(r.edges)[r.edges[0]] > 0;
    forall n
      ensures n in r.nodes <==> n in s.nodes && n.model == host.Trim(filter.model)
    {
      assert n in r.nodes <==> multiset(r.nodes)[n] > 0;
      assert n in s.nodes <==> multiset(s.nodes)[n] > 0;
      assert n in s.nodes ==> (IdAsked(host, filter, s.nodes, n.id) <==> n.model == host.Trim(filter.model));
    }
  }

  /** What an active filter keeps: edges that match or join matched nodes; nodes matched or on a kept edge. */
  lemma KeptExact(host: Host, s: Snapshot, f: Filter)
    ensures forall e :: e in KeptEdges(host, f, s) <==>
              e in s.edges
              && (EdgeMatches(host, f, e)
                  || ((exists m :: m in s.nodes && m.id == e.from && NodeMatches(host, f, m))
                      && exists m :: m in s.nodes && m.id == e.to && NodeMatches(host, f, m)))
    ensures forall n :: n in KeptNodes(host, f, s) <==>
              n in s.nodes
              && ((exists m :: m in s.nodes && m.id == n.id && NodeMatches(host, f, m))
                  || exists e :: e in KeptEdges(host, f, s) && (e.from == n.id || e.to == n.id))
  {
    hide NodeMatches, EdgeMatches;
    var matched := MatchedIds(host, f, s.nodes);
    var ids := matched + EndpointIds(KeptEdges(host, f, s));
    KeepExact(s.edges, e => EdgeKept(host, f, matched, e));
    KeepExact(s.nodes, (n: Node) => n.id in ids);
  }

  /** No dangling edge goes in, none comes out. */
  lemma FilterKeepsClosed(host: Host, s: Snapshot, filter: Filter)
    requires Closed(s)
    ensures Closed(Filtered(host, s, filter))
  {
    var f := Normal(host, filter);
    KeptExact(host, s, f);
    hide KeptNodes, NodeMatches, EdgeMatches, Normal;
    forall e | e in KeptEdges(host, f, s)
      ensures (exists n :: n in KeptNodes(host, f, s) && n.id == e.from) && (exists n :: n in KeptNodes(host, f, s) && n.id == e.to)
    {
      var a :| a in s.nodes && a.id == e.from;
      var b :| b in s.nodes && b.id == e.to;
      assert a in KeptNodes(host, f, s) && b in KeptNodes(host, f, s);
    }
  }

  /** Filtering what was filtered changes nothing, for every filter and snapshot. */
  lemma FilterIdempotent(host: Host, s: Snapshot, filter: Filter)
    ensures Filtered(host, Filtered(host, s, filter), filter) == Filtered(host, s, filter)
  {
    var f := Normal(host, filter);
    var once := s.(nodes := KeptNodes(host, f, s), edges := KeptEdges(host, f, s));
    var matched := MatchedIds(host, f, s.nodes);
    var ids := matched + EndpointIds(KeptEdges(host, f, s));
    KeepExact(s.nodes, (n: Node) => n.id in ids);
    assert MatchedIds(host, f, once.nodes) == matched by {
      hide NodeMatches;
    }
    KeepNarrower(s.edges, e => EdgeKept(host, f, matched, e), e => EdgeKept(host, f, matched, e));
    KeepNarrower(s.nodes, (n: Node) => n.id in ids, (n: Node) => n.id in ids);
    assert KeptEdges(host, f, once) == once.edges;
    assert KeptNodes(host, f, once) == once.nodes;
  }
}
