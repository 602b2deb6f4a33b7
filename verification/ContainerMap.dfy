/**
 The visual container map (grm-flight-deck/src/containerMap.ts): which nodes become region
 anchors, which nodes each region owns, and the ids the regions get. `Build` is the source's
 loops; `BuildSpec` is what they compute; the lemmas say what that means.
 */
module ContainerMap {
  import opened Prelude
  import opened Orders

  datatype Node = Node(id: string, model: string)

  datatype Edge = Edge(id: string, model: string, from: string, to: string)

  datatype Rule = Rule(
    viaEdgeModel: string,
    parentModel: string,
    childModel: string,
    renderAs: Option<string>,
    collapse: Option<string>,
    styleToken: Option<string>)

  datatype Region = Region(
    id: string,
    anchorId: string,
    memberIds: seq<string>,
    renderAs: string,
    collapsed: bool,
    styleToken: Option<string>)

  datatype Candidate = Candidate(rule: Rule, children: set<string>)

  type Candidates = map<string, Candidate>

  /** A later node with the same id wins. */
  function NodeModels(nodes: seq<Node>): map<string, string>
  {
    if nodes == [] then map[]
    else NodeModels(nodes[..|nodes| - 1])[nodes[|nodes| - 1].id := nodes[|nodes| - 1].model]
  }

  predicate Applies(models: map<string, string>, rule: Rule, e: Edge)
  {
    && e.model == rule.viaEdgeModel && e.from != e.to
    && e.from in models && models[e.from] == rule.parentModel
    && e.to in models && models[e.to] == rule.childModel
  }

  // ------------------------------------------------------------- candidates

  function Parents(models: map<string, string>, rule: Rule, edges: seq<Edge>): set<string>
  {
    set e | e in edges && Applies(models, rule, e) :: e.from
  }

  function ChildrenOf(models: map<string, string>, rule: Rule, edges: seq<Edge>, anchor: string): set<string>
  {
    set e | e in edges && Applies(models, rule, e) && e.from == anchor :: e.to
  }

  function Known(cands: Candidates, anchor: string, rule: Rule): Candidate
  {
    if anchor in cands then cands[anchor] else Candidate(rule, {})
  }

  function Extended(models: map<string, string>, rule: Rule, edges: seq<Edge>, cands: Candidates, a: string): Candidate
  {
    Candidate(Known(cands, a, rule).rule, Known(cands, a, rule).children + ChildrenOf(models, rule, edges, a))
  }

  /** One rule: new parents take it as their rule, old ones keep theirs, all gain its children. */
  function AddRule(models: map<string, string>, rule: Rule, edges: seq<Edge>, cands: Candidates): Candidates
  {
    map a | a in cands.Keys + Parents(models, rule, edges) :: Extended(models, rule, edges, cands, a)
  }

  function AddRules(models: map<string, string>, rules: seq<Rule>, edges: seq<Edge>): Candidates
  {
    if rules == [] then map[]
    else AddRule(models, rules[|rules| - 1], edges, AddRules(models, rules[..|rules| - 1], edges))
  }

  lemma ParentsSnoc(models: map<string, string>, rule: Rule, edges: seq<Edge>, e: Edge)
    ensures Parents(models, rule, edges + [e])
            == Parents(models, rule, edges) + (if Applies(models, rule, e) then {e.from} else {})
  {
    hide Applies;
    var more := if Applies(models, rule, e) then {e.from} else {};
    forall a | a in Parents(models, rule, edges) + more
      ensures a in Parents(models, rule, edges + [e])
    {
      if a in Parents(models, rule, edges) {
        var x :| x in edges && Applies(models, rule, x) && x.from == a;
        assert x in edges + [e];
      } else {
        assert e in edges + [e];
      }
    }
  }

  lemma ChildrenSnoc(models: map<string, string>, rule: Rule, edges: seq<Edge>, e: Edge, a: string)
    ensures ChildrenOf(models, rule, edges + [e], a)
            == ChildrenOf(models, rule, edges, a) + (if Applies(models, rule, e) && e.from == a then {e.to} else {})
  {
    hide Applies;
    var more := if Applies(models, rule, e) && e.from == a then {e.to} else {};
    forall c | c in ChildrenOf(models, rule, edges, a) + more
      ensures c in ChildrenOf(models, rule, edges + [e], a)
    {
      if c in ChildrenOf(models, rule, edges, a) {
        var x :| x in edges && Applies(models, rule, x) && x.from == a && x.to == c;
        assert x in edges + [e];
      } else {
        assert e in edges + [e];
      }
    }
  }

  /** Only parents have children. */
  lemma ChildrenHaveParents(models: map<string, string>, rule: Rule, edges: seq<Edge>, a: string)
    ensures ChildrenOf(models, rule, edges, a) != {} <==> a in Parents(models, rule, edges)
  {
    hide Applies;
    if a in Parents(models, rule, edges) {
      var x :| x in edges && Applies(models, rule, x) && x.from == a;
      assert x.to in ChildrenOf(models, rule, edges, a);
    }
  }

  method CollectRule(models: map<string, string>, rule: Rule, edges: seq<Edge>, cands: Candidates) returns (r: Candidates)
    ensures r == AddRule(models, rule, edges, cands)
  {
    r := cands;
    AddNoEdges(models, rule, cands);
    assert edges[..0] == [];
    for i := 0 to |edges|
      invariant r == AddRule(models, rule, edges[..i], cands)
    {
      var e := edges[i];
      assert edges[..i + 1] == edges[..i] + [e];
      AddOneEdge(models, rule, edges[..i], e, cands);
      if Applies(models, rule, e) {
        var candidate := if e.from in r then r[e.from] else Candidate(rule, {});
        candidate := candidate.(children := candidate.children + {e.to});
        r := r[e.from := candidate];
      }
    }
    assert edges[..|edges|] == edges;
  }

  lemma AddNoEdges(models: map<string, string>, rule: Rule, cands: Candidates)
    ensures AddRule(models, rule, [], cands) == cands
  {
    var r := AddRule(models, rule, [], cands);
    assert Parents(models, rule, []) == {};
    forall a | a in cands
      ensures r[a] == cands[a]
    {
      assert ChildrenOf(models, rule, [], a) == {};
    }
  }

  lemma ExtendedSnoc(models: map<string, string>, rule: Rule, edges: seq<Edge>, e: Edge, cands: Candidates, a: string)
    ensures var before := Extended(models, rule, edges, cands, a);
            Extended(models, rule, edges + [e], cands, a)
            == if Applies(models, rule, e) && e.from == a then before.(children := before.children + {e.to}) else before
  {
    hide Applies, ChildrenOf;
    ChildrenSnoc(models, rule, edges, e, a);
    var was := ChildrenOf(models, rule, edges, a);
    var known := Known(cands, a, rule).children;
    assert known + (was + {e.to}) == (known + was) + {e.to};
    assert was + {} == was;
  }

  lemma AddOneEdge(models: map<string, string>, rule: Rule, edges: seq<Edge>, e: Edge, cands: Candidates)
    ensures var before := AddRule(models, rule, edges, cands);
            AddRule(models, rule, edges + [e], cands)
            == if Applies(models, rule, e)
               then before[e.from := Known(before, e.from, rule).(children := Known(before, e.from, rule).children + {e.to})]
               else before
  {
    hide Applies, Parents, ChildrenOf, Extended, Known;
    ParentsSnoc(models, rule, edges, e);
    forall a: string
      ensures Extended(models, rule, edges + [e], cands, a)
              == if Applies(models, rule, e) && e.from == a
                 then Extended(models, rule, edges, cands, a).(children := Extended(models, rule, edges, cands, a).children + {e.to})
                 else Extended(models, rule, edges, cands, a)
    {
      ExtendedSnoc(models, rule, edges, e, cands, a);
    }
    if Applies(models, rule, e) {
      NewParent(models, rule, edges, cands, e.from);
    }
  }

  lemma NewParent(models: map<string, string>, rule: Rule, edges: seq<Edge>, cands: Candidates, a: string)
    ensures Known(AddRule(models, rule, edges, cands), a, rule) == Extended(models, rule, edges, cands, a)
  {
    ChildrenHaveParents(models, rule, edges, a);
  }

  // --------------------------------------------------------------- ownership

  function Prefixed(id: string): string
  {
    "visual-container:" + id
  }

  function AtLeast(n: nat, s: set<string>): set<string>
  {
    set x | x in s && |x| >= n
  }

  lemma PrefixedIsLonger(id: string, reserved: set<string>)
    requires id in reserved
    ensures AtLeast(|Prefixed(id)|, reserved) < AtLeast(|id|, reserved)
  {
    assert id in AtLeast(|id|, reserved) && id !in AtLeast(|Prefixed(id)|, reserved);
  }

  /** Prefixes `id` until it is not reserved; each prefix leaves fewer reserved ids that long. */
  function FreshId(id: string, reserved: set<string>): (r: string)
    ensures r !in reserved
    ensures "visual-container:" <= id ==> "visual-container:" <= r
    decreases AtLeast(|id|, reserved)
  {
    if id in reserved then
      PrefixedIsLonger(id, reserved);
      FreshId(Prefixed(id), reserved)
    else id
  }

  function PrefixedTimes(k: nat, id: string): string
  {
    if k == 0 then id else PrefixedTimes(k - 1, Prefixed(id))
  }

  /** `r` is `id` under k prefixes, and with fewer it is reserved. */
  ghost predicate FewestPrefixes(k: nat, id: string, reserved: set<string>, r: string)
  {
    r == PrefixedTimes(k, id) && r !in reserved && forall j: nat :: j < k ==> PrefixedTimes(j, id) in reserved
  }

  /** The id chosen has the fewest prefixes that leave it unreserved. */
  lemma {:induction false} FreshIdExact(id: string, reserved: set<string>)
    ensures exists k: nat :: FewestPrefixes(k, id, reserved, FreshId(id, reserved))
    decreases AtLeast(|id|, reserved)
  {
    if id in reserved {
      PrefixedIsLonger(id, reserved);
      FreshIdExact(Prefixed(id), reserved);
      var k: nat :| FewestPrefixes(k, Prefixed(id), reserved, FreshId(Prefixed(id), reserved));
      forall j: nat | j < k + 1
        ensures PrefixedTimes(j, id) in reserved
      {
        assert j > 0 ==> PrefixedTimes(j, id) == PrefixedTimes(j - 1, Prefixed(id));
      }
      assert FewestPrefixes(k + 1, id, reserved, FreshId(id, reserved));
    } else {
      assert FreshId(id, reserved) == id;
      assert FewestPrefixes(0, id, reserved, FreshId(id, reserved));
    }
  }

  method FindFreshId(anchorId: string, reserved: set<string>) returns (id: string)
    ensures id == FreshId(Prefixed(anchorId), reserved)
  {
    id := Prefixed(anchorId);
    while id in reserved
      invariant FreshId(id, reserved) == FreshId(Prefixed(anchorId), reserved)
      decreases AtLeast(|id|, reserved)
    {
      PrefixedIsLonger(id, reserved);
      id := Prefixed(id);
    }
  }

  datatype Assigned = Assigned(regions: seq<Region>, owner: map<string, string>, reserved: set<string>)

  function Unowned(cands: Candidates, owner: map<string, string>, a: string): set<string>
    requires a in cands
  {
    set c | c in cands[a].children && c !in cands && c !in owner
  }

  function Own(owner: map<string, string>, members: seq<string>, id: string): map<string, string>
  {
    owner + map m | m in members :: id
  }

  function RegionOf(id: string, a: string, members: seq<string>, rule: Rule): Region
  {
    Region(id, a, members,
           if rule.renderAs.Some? then rule.renderAs.value else "region",
           rule.collapse == Some("collapsed"),
           rule.styleToken)
  }

  function AssignOne(units: Order, cands: Candidates, a: string, s: Assigned): Assigned
    requires StrictTotal(units) && a in cands
  {
    var members := Sorted(units, Unowned(cands, s.owner, a));
    if members == [] then s
    else
      var id := FreshId(Prefixed(a), s.reserved);
      Assigned(
        s.regions + [RegionOf(id, a, members, cands[a].rule)],
        Own(s.owner[a := id], members, id),
        s.reserved + {id})
  }

  function AssignAll(units: Order, cands: Candidates, order: seq<string>, nodeIds: set<string>): Assigned
    requires StrictTotal(units) && forall a :: a in order ==> a in cands
  {
    if order == [] then Assigned([], map[], nodeIds)
    else AssignOne(units, cands, order[|order| - 1], AssignAll(units, cands, order[..|order| - 1], nodeIds))
  }

  // ------------------------------------------------------- ownership, proved

  predicate InRegion(x: string, r: Region)
  {
    x == r.anchorId || x in r.memberIds
  }

  /** Anchors are handled candidates; members are their children, never candidates; no region is empty. */
  ghost predicate RegionsWellFormed(cands: Candidates, done: seq<string>, s: Assigned)
  {
    forall r :: r in s.regions ==>
      && r.anchorId in done && r.anchorId in cands && r.memberIds != [] && NoDup(r.memberIds)
      && (forall m :: m in r.memberIds ==> m !in cands && m in cands[r.anchorId].children)
      && FollowsRule(r, cands[r.anchorId].rule)
  }

  /** A region is drawn as its anchor's rule says; only the word "collapsed" collapses it. */
  predicate FollowsRule(r: Region, rule: Rule)
  {
    && (r.collapsed <==> rule.collapse.Some? && rule.collapse.value == "collapsed")
    && (rule.renderAs.Some? ==> r.renderAs == rule.renderAs.value) && (rule.renderAs.None? ==> r.renderAs == "region")
    && r.styleToken == rule.styleToken
  }

  /** `owner` is exactly the union of the regions. */
  ghost predicate OwnersAreRegions(s: Assigned)
  {
    && (forall r, x :: r in s.regions && InRegion(x, r) ==> x in s.owner && s.owner[x] == r.id)
    && (forall x :: x in s.owner ==> exists r :: r in s.regions && InRegion(x, r))
  }

  ghost predicate IdsFresh(nodeIds: set<string>, s: Assigned)
  {
    && nodeIds <= s.reserved
    && (forall i :: 0 <= i < |s.regions| ==>
          s.regions[i].id in s.reserved && s.regions[i].id !in nodeIds && "visual-container:" <= s.regions[i].id)
    && (forall i, j :: 0 <= i < j < |s.regions| ==> s.regions[i].id != s.regions[j].id)
  }

  /** Children of handled anchors are owned, and by the least of those anchors. */
  ghost predicate LeastOwns(locale: Order, cands: Candidates, done: seq<string>, s: Assigned)
  {
    && (forall a, c :: a in done && a in cands && c in cands[a].children && c !in cands ==> c in s.owner)
    && (forall r, m, a :: r in s.regions && m in r.memberIds && a in done && a in cands && m in cands[a].children
          ==> a == r.anchorId || locale(r.anchorId, a))
  }

  lemma AssignOneKeepsRegions(units: Order, cands: Candidates, done: seq<string>, a: string, s: Assigned)
    requires StrictTotal(units) && a in cands
    requires RegionsWellFormed(cands, done, s)
    ensures RegionsWellFormed(cands, done + [a], AssignOne(units, cands, a, s))
  {
    var members := Sorted(units, Unowned(cands, s.owner, a));
    AscendingNoDup(units, members);
    hide Sorted, FreshId, StrictTotal, Ascending;
  }

  lemma AssignOneKeepsOwners(units: Order, cands: Candidates, done: seq<string>, a: string, s: Assigned)
    requires StrictTotal(units) && a in cands && a !in done
    requires RegionsWellFormed(cands, done, s) && OwnersAreRegions(s)
    ensures OwnersAreRegions(AssignOne(units, cands, a, s))
  {
    var members := Sorted(units, Unowned(cands, s.owner, a));
    hide Sorted, FreshId, StrictTotal, Ascending;
    if members != [] {
      var next := AssignOne(units, cands, a, s);
      var last := next.regions[|s.regions|];
      assert forall r :: r in s.regions ==> !InRegion(a, r);
      forall r, x | r in next.regions && InRegion(x, r)
        ensures x in next.owner && next.owner[x] == r.id
      {
        if r in s.regions {
          assert x in s.owner;
        } else {
          assert r == last;
        }
      }
      forall x | x in next.owner
        ensures exists r :: r in next.regions && InRegion(x, r)
      {
        if x in s.owner {
          var r :| r in s.regions && InRegion(x, r);
          assert r in next.regions;
        } else {
          assert last in next.regions && InRegion(x, last);
        }
      }
    }
  }

  lemma AssignOneKeepsIds(units: Order, cands: Candidates, nodeIds: set<string>, a: string, s: Assigned)
    requires StrictTotal(units) && a in cands
    requires IdsFresh(nodeIds, s)
    ensures IdsFresh(nodeIds, AssignOne(units, cands, a, s))
  {
    hide Sorted, FreshId, StrictTotal, Unowned, Own;
  }

  lemma AssignOneKeepsLeast(locale: Order, units: Order, cands: Candidates, done: seq<string>, a: string, s: Assigned)
    requires StrictTotal(units) && a in cands
    requires forall b :: b in done ==> locale(b, a)
    requires RegionsWellFormed(cands, done, s) && LeastOwns(locale, cands, done, s)
    ensures LeastOwns(locale, cands, done + [a], AssignOne(units, cands, a, s))
  {
    var members := Sorted(units, Unowned(cands, s.owner, a));
    hide Sorted, FreshId, StrictTotal;
    var next := AssignOne(units, cands, a, s);
    forall b, c | b in done + [a] && b in cands && c in cands[b].children && c !in cands
      ensures c in next.owner
    {
      if b == a && c !in s.owner {
        assert c in Unowned(cands, s.owner, a);
        assert c in members;
      }
    }
    forall r, m, b | r in next.regions && m in r.memberIds && b in done + [a] && b in cands && m in cands[b].children
      ensures b == r.anchorId || locale(r.anchorId, b)
    {
      if r !in s.regions {
        assert r.anchorId == a && m in Unowned(cands, s.owner, a);
      } else {
        assert r.anchorId in done;
      }
    }
  }

  ghost predicate Owned(locale: Order, cands: Candidates, nodeIds: set<string>, done: seq<string>, s: Assigned)
  {
    RegionsWellFormed(cands, done, s) && OwnersAreRegions(s) && IdsFresh(nodeIds, s) && LeastOwns(locale, cands, done, s)
  }

  lemma LastIsLater(locale: Order, done: seq<string>, a: string)
    requires StrictTotal(locale) && Ascending(locale, done + [a])
    ensures forall b :: b in done ==> locale(b, a)
    ensures a !in done && Ascending(locale, done)
  {
    var order := done + [a];
    forall b | b in done
      ensures locale(b, a)
    {
      var i :| 0 <= i < |done| && done[i] == b;
      assert locale(order[i], order[|done|]);
    }
    forall i, j | 0 <= i < j < |done|
      ensures locale(done[i], done[j])
    {
      assert locale(order[i], order[j]);
    }
    assert !locale(a, a);
  }

  lemma {:induction false} AssignAllOwned(
      locale: Order, units: Order, cands: Candidates, order: seq<string>, nodeIds: set<string>)
    requires StrictTotal(locale) && StrictTotal(units) && Ascending(locale, order)
    requires forall a :: a in order ==> a in cands
    ensures Owned(locale, cands, nodeIds, order, AssignAll(units, cands, order, nodeIds))
  {
    if order != [] {
      var done, a := order[..|order| - 1], order[|order| - 1];
      var s := AssignAll(units, cands, done, nodeIds);
      AssignAllOwned(locale, units, cands, done, nodeIds);
      hide RegionsWellFormed, OwnersAreRegions, IdsFresh, LeastOwns, AssignOne;
      assert done + [a] == order;
      LastIsLater(locale, done, a);
      hide StrictTotal;
      AssignOneKeepsRegions(units, cands, done, a, s);
      AssignOneKeepsOwners(units, cands, done, a, s);
      AssignOneKeepsIds(units, cands, nodeIds, a, s);
      AssignOneKeepsLeast(locale, units, cands, done, a, s);
    }
  }

  // ------------------------------------------------------------- the whole map

  function InOrder(rules: map<string, Rule>, keys: seq<string>): seq<Rule>
    requires forall k :: k in keys ==> k in rules
  {
    if keys == [] then [] else InOrder(rules, keys[..|keys| - 1]) + [rules[keys[|keys| - 1]]]
  }

  /** The candidates: every node that some rule makes a parent, with all its children. */
  function CandidatesOf(locale: Order, nodes: seq<Node>, edges: seq<Edge>, rules: map<string, Rule>): Candidates
    requires StrictTotal(locale)
  {
    AddRules(NodeModels(nodes), InOrder(rules, Sorted(locale, rules.Keys)), edges)
  }

  function MapOf(locale: Order, units: Order, nodes: seq<Node>, edges: seq<Edge>, rules: map<string, Rule>): Assigned
    requires StrictTotal(locale) && StrictTotal(units)
  {
    var cands := CandidatesOf(locale, nodes, edges, rules);
    AssignAll(units, cands, Sorted(locale, cands.Keys), NodeModels(nodes).Keys)
  }

  predicate EdgeBefore(locale: Order, a: Edge, b: Edge)
  {
    if a.from != b.from then locale(a.from, b.from)
    else if a.to != b.to then locale(a.to, b.to)
    else locale(a.id, b.id)
  }

  function Insert(locale: Order, e: Edge, edges: seq<Edge>): (r: seq<Edge>)
    ensures multiset(r) == multiset(edges) + multiset{e}
  {
    if edges == [] || EdgeBefore(locale, e, edges[0]) then [e] + edges
    else
      assert edges == [edges[0]] + edges[1..];
      [edges[0]] + Insert(locale, e, edges[1..])
  }

  function SortEdges(locale: Order, edges: seq<Edge>): (r: seq<Edge>)
    ensures multiset(r) == multiset(edges)
  {
    if edges == [] then []
    else
      assert edges == [edges[0]] + edges[1..];
      Insert(locale, edges[0], SortEdges(locale, edges[1..]))
  }

  method IndexNodes(nodes: seq<Node>) returns (models: map<string, string>)
    ensures models == NodeModels(nodes)
  {
    models := map[];
    for i := 0 to |nodes|
      invariant models == NodeModels(nodes[..i])
    {
      assert nodes[..i + 1][..i] == nodes[..i];
      models := models[nodes[i].id := nodes[i].model];
    }
    assert nodes[..|nodes|] == nodes;
  }

  lemma NoRules(models: map<string, string>, rules: map<string, Rule>, edges: seq<Edge>)
    ensures AddRules(models, InOrder(rules, []), edges) == map[]
  {
  }

  lemma NextRule(models: map<string, string>, rules: map<string, Rule>, keys: seq<string>, i: nat, edges: seq<Edge>)
    requires i < |keys| && forall k :: k in keys ==> k in rules
    ensures AddRules(models, InOrder(rules, keys[..i + 1]), edges)
            == AddRule(models, rules[keys[i]], edges, AddRules(models, InOrder(rules, keys[..i]), edges))
  {
    hide AddRule;
    assert keys[..i + 1][..i] == keys[..i];
    var done, rule := InOrder(rules, keys[..i]), rules[keys[i]];
    assert InOrder(rules, keys[..i + 1]) == done + [rule];
    assert (done + [rule])[..|done|] == done;
  }

  method CollectCandidates(locale: Order, models: map<string, string>, edges: seq<Edge>, rules: map<string, Rule>)
    returns (cands: Candidates)
    requires StrictTotal(locale)
    ensures cands == AddRules(models, InOrder(rules, Sorted(locale, rules.Keys)), edges)
  {
    var sorted := SortEdges(locale, edges);
    assert forall e :: e in sorted <==> e in edges by {
      assert forall e :: e in sorted <==> e in multiset(sorted);
    }
    var keys := Sorted(locale, rules.Keys);
    cands := map[];
    NoRules(models, rules, edges);
    assert keys[..0] == [];
    hide AddRule, AddRules, InOrder, Sorted, SortEdges, StrictTotal;
    for i := 0 to |keys|
      invariant cands == AddRules(models, InOrder(rules, keys[..i]), edges)
    {
      NextRule(models, rules, keys, i, edges);
      SameEdgesSameRule(models, rules[keys[i]], edges, sorted, cands);
      cands := CollectRule(models, rules[keys[i]], sorted, cands);
    }
    assert keys[..|keys|] == keys;
  }

  lemma OwnNone(owner: map<string, string>, id: string)
    ensures Own(owner, [], id) == owner
  {
  }

  lemma OwnSnoc(owner: map<string, string>, members: seq<string>, m: string, id: string)
    ensures Own(owner, members + [m], id) == Own(owner, members, id)[m := id]
  {
    forall x | x in members + [m]
      ensures x in members || x == m
    {
    }
  }

  method OwnMembers(owner: map<string, string>, memberIds: seq<string>, id: string) returns (r: map<string, string>)
    ensures r == Own(owner, memberIds, id)
  {
    hide Own;
    r := owner;
    OwnNone(owner, id);
    assert memberIds[..0] == [];
    for j := 0 to |memberIds|
      invariant r == Own(owner, memberIds[..j], id)
    {
      OwnSnoc(owner, memberIds[..j], memberIds[j], id);
      assert memberIds[..j + 1] == memberIds[..j] + [memberIds[j]];
      r := r[memberIds[j] := id];
    }
    assert memberIds[..|memberIds|] == memberIds;
  }

  method AssignRegions(units: Order, cands: Candidates, anchors: seq<string>, nodeIds: set<string>)
    returns (regions: seq<Region>, ownerByNode: map<string, string>)
    requires StrictTotal(units) && forall a :: a in anchors ==> a in cands
    ensures regions == AssignAll(units, cands, anchors, nodeIds).regions
    ensures ownerByNode == AssignAll(units, cands, anchors, nodeIds).owner
  {
    hide StrictTotal, Sorted, Unowned, Own, FreshId;
    var reserved := nodeIds;
    regions, ownerByNode := [], map[];
    for i := 0 to |anchors|
      invariant Assigned(regions, ownerByNode, reserved) == AssignAll(units, cands, anchors[..i], nodeIds)
    {
      assert anchors[..i + 1][..i] == anchors[..i];
      var a := anchors[i];
      var memberIds := Sorted(units, Unowned(cands, ownerByNode, a));
      if memberIds != [] {
        var id := FindFreshId(a, reserved);
        reserved := reserved + {id};
        regions := regions + [RegionOf(id, a, memberIds, cands[a].rule)];
        ownerByNode := OwnMembers(ownerByNode[a := id], memberIds, id);
      }
    }
    assert anchors[..|anchors|] == anchors;
  }

  /** The source's whole function. */
  method Build(locale: Order, units: Order, nodes: seq<Node>, edges: seq<Edge>, rules: map<string, Rule>)
    returns (regions: seq<Region>, ownerByNode: map<string, string>)
    requires StrictTotal(locale) && StrictTotal(units)
    ensures regions == MapOf(locale, units, nodes, edges, rules).regions
    ensures ownerByNode == MapOf(locale, units, nodes, edges, rules).owner
    ensures IdsFromAnchors(set n | n in nodes :: n.id, regions) && InOrders(locale, units, regions)
  {
    var models := IndexNodes(nodes);
    var cands := CollectCandidates(locale, models, edges, rules);
    regions, ownerByNode := AssignRegions(units, cands, Sorted(locale, cands.Keys), models.Keys);
    RegionIdsFromAnchors(locale, units, nodes, edges, rules);
  }

  // ------------------------------------------------------------ main results

  lemma SameEdgesSameRule(models: map<string, string>, rule: Rule, edges: seq<Edge>, others: seq<Edge>, cands: Candidates)
    requires forall e :: e in edges <==> e in others
    ensures AddRule(models, rule, edges, cands) == AddRule(models, rule, others, cands)
  {
    hide Applies;
    assert Parents(models, rule, edges) == Parents(models, rule, others);
    forall a: string
      ensures ChildrenOf(models, rule, edges, a) == ChildrenOf(models, rule, others, a)
    {
    }
  }

  lemma {:induction false} SameEdgesSameRules(models: map<string, string>, rules: seq<Rule>, edges: seq<Edge>, others: seq<Edge>)
    requires forall e :: e in edges <==> e in others
    ensures AddRules(models, rules, edges) == AddRules(models, rules, others)
  {
    if rules != [] {
      SameEdgesSameRules(models, rules[..|rules| - 1], edges, others);
      SameEdgesSameRule(models, rules[|rules| - 1], edges, others, AddRules(models, rules[..|rules| - 1], edges));
    }
  }

  /** The order, and repetition, of the snapshot's edges never shows in the map. */
  lemma EdgeOrderIrrelevant(
      locale: Order, units: Order, nodes: seq<Node>, edges: seq<Edge>, others: seq<Edge>, rules: map<string, Rule>)
    requires StrictTotal(locale) && StrictTotal(units)
    requires forall e :: e in edges <==> e in others
    ensures MapOf(locale, units, nodes, edges, rules) == MapOf(locale, units, nodes, others, rules)
  {
    SameEdgesSameRules(NodeModels(nodes), InOrder(rules, Sorted(locale, rules.Keys)), edges, others);
  }

  /** Some edge makes `c` a child of `a` under `rule`. */
  ghost predicate Contains(models: map<string, string>, rule: Rule, edges: seq<Edge>, a: string, c: string)
  {
    exists e :: e in edges && Applies(models, rule, e) && e.from == a && e.to == c
  }

  /** The candidates' children are what the rules contain, over all rules. */
  lemma {:induction false} ChildrenExact(models: map<string, string>, rules: seq<Rule>, edges: seq<Edge>, a: string, c: string)
    ensures var cands := AddRules(models, rules, edges);
            (a in cands && c in cands[a].children) <==> exists i :: 0 <= i < |rules| && Contains(models, rules[i], edges, a, c)
  {
    hide Applies;
    if rules != [] {
      var n := |rules| - 1;
      ChildrenExact(models, rules[..n], edges, a, c);
      assert c in ChildrenOf(models, rules[n], edges, a) <==> Contains(models, rules[n], edges, a, c);
      ChildrenHaveParents(models, rules[n], edges, a);
      assert forall i :: 0 <= i < n ==> rules[..n][i] == rules[i];
      hide Parents, ChildrenOf, Contains;
      if i :| 0 <= i < |rules| && Contains(models, rules[i], edges, a, c) {
        assert i == n || Contains(models, rules[..n][i], edges, a, c);
      }
    }
  }

  /** A candidate keeps the first rule, in key order, that made it a parent, and never lacks children. */
  lemma {:induction false} FirstRuleKept(models: map<string, string>, rules: seq<Rule>, edges: seq<Edge>, a: string)
    requires a in AddRules(models, rules, edges)
    ensures AddRules(models, rules, edges)[a].children != {}
    ensures exists i :: 0 <= i < |rules| && rules[i] == AddRules(models, rules, edges)[a].rule && a in Parents(models, rules[i], edges)
              && forall j :: 0 <= j < i ==> a !in Parents(models, rules[j], edges)
  {
    hide Applies;
    var n := |rules| - 1;
    var before := AddRules(models, rules[..n], edges);
    ChildrenHaveParents(models, rules[n], edges, a);
    if a in before {
      FirstRuleKept(models, rules[..n], edges, a);
      var i :| 0 <= i < n && rules[..n][i] == before[a].rule && a in Parents(models, rules[..n][i], edges)
               && forall j :: 0 <= j < i ==> a !in Parents(models, rules[..n][j], edges);
      assert forall j :: 0 <= j < n ==> rules[..n][j] == rules[j];
    } else {
      NotCandidate(models, rules[..n], edges, a);
      assert forall j :: 0 <= j < n ==> rules[..n][j] == rules[j];
      assert rules[n] == AddRules(models, rules, edges)[a].rule;
    }
  }

  lemma {:induction false} NotCandidate(models: map<string, string>, rules: seq<Rule>, edges: seq<Edge>, a: string)
    requires a !in AddRules(models, rules, edges)
    ensures forall i :: 0 <= i < |rules| ==> a !in Parents(models, rules[i], edges)
  {
    hide Applies, Parents;
    if rules != [] {
      var n := |rules| - 1;
      NotCandidate(models, rules[..n], edges, a);
      assert forall i :: 0 <= i < n ==> rules[..n][i] == rules[i];
    }
  }

  ghost predicate Disjoint(a: Region, b: Region)
  {
    forall x :: !(InRegion(x, a) && InRegion(x, b))
  }

  /** Ownership is a partition: `ownerByNode` is exactly the union of disjoint, non-empty regions. */
  lemma OwnershipIsPartition(locale: Order, units: Order, nodes: seq<Node>, edges: seq<Edge>, rules: map<string, Rule>)
    requires StrictTotal(locale) && StrictTotal(units)
    ensures var m := MapOf(locale, units, nodes, edges, rules);
            var cands := CandidatesOf(locale, nodes, edges, rules);
            && OwnersAreRegions(m)
            && (forall r :: r in m.regions ==> r.memberIds != [] && NoDup(r.memberIds))
            && (forall r :: r in m.regions ==> r.anchorId in cands && FollowsRule(r, cands[r.anchorId].rule))
            && (forall i, j :: 0 <= i < j < |m.regions| ==> Disjoint(m.regions[i], m.regions[j]))
            && (forall r, q, x :: r in m.regions && q in m.regions && x in r.memberIds ==> x != q.anchorId)
  {
    var cands := CandidatesOf(locale, nodes, edges, rules);
    var nodeIds := NodeModels(nodes).Keys;
    var order := Sorted(locale, cands.Keys);
    var m := MapOf(locale, units, nodes, edges, rules);
    AssignAllOwned(locale, units, cands, order, nodeIds);
    hide CandidatesOf, MapOf, AssignAll, StrictTotal, Sorted, NodeModels;
    forall i, j | 0 <= i < j < |m.regions|
      ensures Disjoint(m.regions[i], m.regions[j])
    {
      assert m.regions[i] in m.regions && m.regions[j] in m.regions;
      assert m.regions[i].id != m.regions[j].id;
    }
  }

  /** Region ids never clash with a node id or with each other. */
  lemma RegionIdsDistinct(locale: Order, units: Order, nodes: seq<Node>, edges: seq<Edge>, rules: map<string, Rule>)
    requires StrictTotal(locale) && StrictTotal(units)
    ensures var m := MapOf(locale, units, nodes, edges, rules);
            && (forall i, j :: 0 <= i < j < |m.regions| ==> m.regions[i].id != m.regions[j].id)
            && (forall i, k :: 0 <= i < |m.regions| && 0 <= k < |nodes| ==> m.regions[i].id != nodes[k].id)
  {
    var cands := CandidatesOf(locale, nodes, edges, rules);
    AssignAllOwned(locale, units, cands, Sorted(locale, cands.Keys), NodeModels(nodes).Keys);
    NodeIdsIndexed(nodes);
  }

  lemma {:induction false} NodeIdsIndexed(nodes: seq<Node>)
    ensures forall k :: 0 <= k < |nodes| ==> nodes[k].id in NodeModels(nodes)
  {
    if nodes != [] {
      NodeIdsIndexed(nodes[..|nodes| - 1]);
      assert forall k :: 0 <= k < |nodes| - 1 ==> nodes[..|nodes| - 1][k] == nodes[k];
    }
  }

  /** The candidates that contain `c`. */
  function AnchorsOf(cands: Candidates, c: string): set<string>
  {
    set a | a in cands && c in cands[a].children
  }

  /** A node that is no candidate is owned exactly when a candidate contains it, and then by the least one. */
  lemma LeastAnchorOwns(
      locale: Order, units: Order, nodes: seq<Node>, edges: seq<Edge>, rules: map<string, Rule>, c: string)
    requires StrictTotal(locale) && StrictTotal(units)
    requires c !in CandidatesOf(locale, nodes, edges, rules)
    ensures var cands := CandidatesOf(locale, nodes, edges, rules);
            var m := MapOf(locale, units, nodes, edges, rules);
            && (c in m.owner <==> AnchorsOf(cands, c) != {})
            && (c in m.owner ==>
                  exists r :: r in m.regions && c in r.memberIds && m.owner[c] == r.id
                              && IsFirst(locale, r.anchorId, AnchorsOf(cands, c)))
  {
    var cands := CandidatesOf(locale, nodes, edges, rules);
    var order := Sorted(locale, cands.Keys);
    var m := MapOf(locale, units, nodes, edges, rules);
    AssignAllOwned(locale, units, cands, order, NodeModels(nodes).Keys);
    hide CandidatesOf, MapOf, AssignAll, StrictTotal, Sorted, NodeModels;
    if a :| a in AnchorsOf(cands, c) {
      assert a in order;
    }
    if c in m.owner {
      var r :| r in m.regions && InRegion(c, r);
      assert r.anchorId in AnchorsOf(cands, c);
      forall b | b in AnchorsOf(cands, c)
        ensures b == r.anchorId || locale(r.anchorId, b)
      {
        assert b in order;
      }
    }
  }

  lemma FirstUnique(less: Order, x: string, y: string, s: set<string>)
    requires StrictTotal(less) && IsFirst(less, x, s) && IsFirst(less, y, s)
    ensures x == y
  {
    assert !less(x, x) && (less(x, y) && less(y, x) ==> less(x, x));
  }

  lemma SameIdSameRegion(nodeIds: set<string>, s: Assigned, r: Region, q: Region)
    requires IdsFresh(nodeIds, s) && r in s.regions && q in s.regions && r.id == q.id
    ensures r == q
  {
    var i :| 0 <= i < |s.regions| && s.regions[i] == r;
    var j :| 0 <= j < |s.regions| && s.regions[j] == q;
  }

  /** A candidate anchors a region exactly when it is the least anchor of some node that is no candidate. */
  lemma AnchorsExactly(
      locale: Order, units: Order, nodes: seq<Node>, edges: seq<Edge>, rules: map<string, Rule>, a: string)
    requires StrictTotal(locale) && StrictTotal(units)
    ensures var cands := CandidatesOf(locale, nodes, edges, rules);
            (exists r :: r in MapOf(locale, units, nodes, edges, rules).regions && r.anchorId == a)
            <==> exists c :: c !in cands && IsFirst(locale, a, AnchorsOf(cands, c))
  {
    var cands := CandidatesOf(locale, nodes, edges, rules);
    var m := MapOf(locale, units, nodes, edges, rules);
    AssignAllOwned(locale, units, cands, Sorted(locale, cands.Keys), NodeModels(nodes).Keys);
    hide CandidatesOf, MapOf, AssignAll, Sorted, NodeModels, StrictTotal, IsFirst, AnchorsOf, IdsFresh, LeastOwns;
    if r :| r in m.regions && r.anchorId == a {
      var c := r.memberIds[0];
      assert InRegion(c, r) && c !in cands;
      LeastAnchorOwns(locale, units, nodes, edges, rules, c);
      var q :| q in m.regions && c in q.memberIds && m.owner[c] == q.id && IsFirst(locale, q.anchorId, AnchorsOf(cands, c));
      SameIdSameRegion(NodeModels(nodes).Keys, m, r, q);
    }
    if c :| c !in cands && IsFirst(locale, a, AnchorsOf(cands, c)) {
      NotEmptyWithFirst(locale, a, AnchorsOf(cands, c));
      LeastAnchorOwns(locale, units, nodes, edges, rules, c);
      var r :| r in m.regions && c in r.memberIds && m.owner[c] == r.id && IsFirst(locale, r.anchorId, AnchorsOf(cands, c));
      FirstUnique(locale, a, r.anchorId, AnchorsOf(cands, c));
    }
  }

  lemma NotEmptyWithFirst(less: Order, x: string, s: set<string>)
    requires IsFirst(less, x, s)
    ensures s != {}
  {
  }

  /** Anchors and their children are nodes of the snapshot. */
  lemma {:induction false} CandidatesAreNodes(models: map<string, string>, rules: seq<Rule>, edges: seq<Edge>)
    ensures forall a :: a in AddRules(models, rules, edges) ==> a in models && AddRules(models, rules, edges)[a].children <= models.Keys
  {
    if rules != [] {
      CandidatesAreNodes(models, rules[..|rules| - 1], edges);
    }
  }

  // ------------------------------------------- the map from the snapshot itself

  /** The ids of the first n regions. */
  function IdsTo(regions: seq<Region>, n: nat): set<string>
    requires n <= |regions|
  {
    set i | 0 <= i < n :: regions[i].id
  }

  /** Each region's id is its anchor's under the fewest prefixes that leave no node and no earlier region with it. */
  ghost predicate IdsFromAnchors(nodeIds: set<string>, regions: seq<Region>)
  {
    forall i :: 0 <= i < |regions| ==> IdFromAnchor(nodeIds, regions, i)
  }

  ghost predicate IdFromAnchor(nodeIds: set<string>, regions: seq<Region>, i: nat)
    requires i < |regions|
  {
    exists k: nat :: FewestPrefixes(k, "visual-container:" + regions[i].anchorId, nodeIds + IdsTo(regions, i), regions[i].id)
  }

  /** Anchors come in order, and so do each region's members. */
  ghost predicate InOrders(locale: Order, units: Order, regions: seq<Region>)
  {
    && (forall i, j :: 0 <= i < j < |regions| ==> locale(regions[i].anchorId, regions[j].anchorId))
    && (forall r :: r in regions ==> Ascending(units, r.memberIds))
  }

  lemma AssignOneIds(units: Order, cands: Candidates, nodeIds: set<string>, a: string, s: Assigned)
    requires StrictTotal(units) && a in cands
    requires IdsFromAnchors(nodeIds, s.regions) && s.reserved == nodeIds + IdsTo(s.regions, |s.regions|)
    ensures var t := AssignOne(units, cands, a, s);
            IdsFromAnchors(nodeIds, t.regions) && t.reserved == nodeIds + IdsTo(t.regions, |t.regions|)
  {
    hide StrictTotal, Sorted, Unowned, Own, FreshId, FewestPrefixes, Prefixed;
    var t := AssignOne(units, cands, a, s);
    if t != s {
      var n := |s.regions|;
      FreshIdExact(Prefixed(a), s.reserved);
      assert Prefixed(a) == "visual-container:" + a by {
        PrefixedIs(a);
      }
      forall i | 0 <= i <= n
        ensures IdsTo(t.regions, i) == IdsTo(s.regions, i)
      {
        assert forall j :: 0 <= j < i ==> t.regions[j] == s.regions[j];
      }
      forall i | 0 <= i < |t.regions|
        ensures IdFromAnchor(nodeIds, t.regions, i)
      {
        if i < n {
          assert t.regions[i] == s.regions[i];
          assert IdFromAnchor(nodeIds, s.regions, i);
        } else {
          var k: nat :| FewestPrefixes(k, Prefixed(a), s.reserved, t.regions[n].id);
          assert t.regions[n].anchorId == a;
        }
      }
      assert IdsTo(t.regions, n + 1) == IdsTo(t.regions, n) + {t.regions[n].id};
    }
  }

  lemma PrefixedIs(a: string)
    ensures Prefixed(a) == "visual-container:" + a
  {
  }

  lemma AssignOneOrders(locale: Order, units: Order, cands: Candidates, done: seq<string>, a: string, s: Assigned)
    requires StrictTotal(units) && a in cands && forall b :: b in done ==> locale(b, a)
    requires RegionsWellFormed(cands, done, s) && InOrders(locale, units, s.regions)
    ensures InOrders(locale, units, AssignOne(units, cands, a, s).regions)
  {
    hide StrictTotal, Sorted, Unowned, Own, FreshId, Ascending;
    var t := AssignOne(units, cands, a, s);
    forall i, j | 0 <= i < j < |t.regions|
      ensures locale(t.regions[i].anchorId, t.regions[j].anchorId)
    {
      assert s.regions[i] in s.regions;
    }
  }

  lemma {:induction false} AssignAllIds(
      locale: Order, units: Order, cands: Candidates, order: seq<string>, nodeIds: set<string>)
    requires StrictTotal(locale) && StrictTotal(units) && Ascending(locale, order)
    requires forall a :: a in order ==> a in cands
    ensures var s := AssignAll(units, cands, order, nodeIds);
            IdsFromAnchors(nodeIds, s.regions) && s.reserved == nodeIds + IdsTo(s.regions, |s.regions|)
            && InOrders(locale, units, s.regions)
  {
    if order != [] {
      var done, a := order[..|order| - 1], order[|order| - 1];
      var s := AssignAll(units, cands, done, nodeIds);
      assert done + [a] == order;
      LastIsLater(locale, done, a);
      AssignAllIds(locale, units, cands, done, nodeIds);
      AssignAllOwned(locale, units, cands, done, nodeIds);
      hide RegionsWellFormed, OwnersAreRegions, IdsFresh, LeastOwns, AssignOne, StrictTotal, InOrders, IdsFromAnchors, IdsTo;
      AssignOneIds(units, cands, nodeIds, a, s);
      AssignOneOrders(locale, units, cands, done, a, s);
    } else {
      assert IdsTo([], 0) == {};
    }
  }

  /** Region ids come from their anchors, and regions and members come in order. */
  lemma RegionIdsFromAnchors(locale: Order, units: Order, nodes: seq<Node>, edges: seq<Edge>, rules: map<string, Rule>)
    requires StrictTotal(locale) && StrictTotal(units)
    ensures var m, nodeIds := MapOf(locale, units, nodes, edges, rules), set n | n in nodes :: n.id;
            IdsFromAnchors(nodeIds, m.regions) && InOrders(locale, units, m.regions)
  {
    var cands := CandidatesOf(locale, nodes, edges, rules);
    hide CandidatesOf, AssignAll, StrictTotal, Sorted, IdsFromAnchors, InOrders;
    AssignAllIds(locale, units, cands, Sorted(locale, cands.Keys), NodeModels(nodes).Keys);
    NodeModelsKeys(nodes);
  }

  /** In particular it is the anchor's under one prefix if no node and no earlier region has that. */
  lemma PlainRegionId(locale: Order, units: Order, nodes: seq<Node>, edges: seq<Edge>, rules: map<string, Rule>, i: nat)
    requires StrictTotal(locale) && StrictTotal(units) && i < |MapOf(locale, units, nodes, edges, rules).regions|
    ensures var regions := MapOf(locale, units, nodes, edges, rules).regions;
            var plain := "visual-container:" + regions[i].anchorId;
            (forall n :: n in nodes ==> n.id != plain) && (forall j :: 0 <= j < i ==> regions[j].id != plain) <==> regions[i].id == plain
  {
    RegionIdsFromAnchors(locale, units, nodes, edges, rules);
    hide MapOf, StrictTotal;
    var regions, nodeIds := MapOf(locale, units, nodes, edges, rules).regions, set n | n in nodes :: n.id;
    assert IdFromAnchor(nodeIds, regions, i);
    var k: nat :| FewestPrefixes(k, "visual-container:" + regions[i].anchorId, nodeIds + IdsTo(regions, i), regions[i].id);
    assert k > 0 ==> PrefixedTimes(0, "visual-container:" + regions[i].anchorId) in nodeIds + IdsTo(regions, i);
  }

  lemma {:induction false} NodeModelsKeys(nodes: seq<Node>)
    ensures NodeModels(nodes).Keys == set n | n in nodes :: n.id
  {
    if nodes != [] {
      NodeModelsKeys(nodes[..|nodes| - 1]);
      assert nodes == nodes[..|nodes| - 1] + [nodes[|nodes| - 1]];
    }
  }

  predicate LastAt(nodes: seq<Node>, id: string, model: string, i: nat)
  {
    i < |nodes| && nodes[i].id == id && nodes[i].model == model && forall j :: i < j < |nodes| ==> nodes[j].id != id
  }

  /** The last node listed with this id has this model. */
  ghost predicate IsOf(nodes: seq<Node>, id: string, model: string)
  {
    exists i :: LastAt(nodes, id, model, i)
  }

  lemma IsOfLast(nodes: seq<Node>, id: string, model: string)
    requires nodes != []
    ensures var n := |nodes| - 1;
            IsOf(nodes, id, model) <==> if nodes[n].id == id then nodes[n].model == model else IsOf(nodes[..n], id, model)
  {
    var n := |nodes| - 1;
    assert LastAt(nodes, id, model, n) <==> nodes[n].id == id && nodes[n].model == model;
    forall i: nat | i < n
      ensures LastAt(nodes, id, model, i) <==> nodes[n].id != id && LastAt(nodes[..n], id, model, i)
    {
      assert forall j :: 0 <= j < n ==> nodes[..n][j] == nodes[j];
      if LastAt(nodes[..n], id, model, i) && nodes[n].id != id {
        assert forall j :: i < j < n ==> nodes[j].id == nodes[..n][j].id;
      }
    }
    hide LastAt;
    if i: nat :| LastAt(nodes[..n], id, model, i) {
      LastAtBound(nodes[..n], id, model, i);
      assert nodes[n].id != id ==> LastAt(nodes, id, model, i);
    }
    if i: nat :| LastAt(nodes, id, model, i) {
      LastAtBound(nodes, id, model, i);
    }
  }

  lemma LastAtBound(nodes: seq<Node>, id: string, model: string, i: nat)
    requires LastAt(nodes, id, model, i)
    ensures i < |nodes|
  {
  }

  lemma {:induction false} NodeModelsExactly(nodes: seq<Node>, id: string, model: string)
    ensures id in NodeModels(nodes) && NodeModels(nodes)[id] == model <==> IsOf(nodes, id, model)
  {
    if nodes != [] {
      NodeModelsExactly(nodes[..|nodes| - 1], id, model);
      IsOfLast(nodes, id, model);
      hide IsOf;
    }
  }

  /** Some edge of the rule's kind leads from `a` to another node `c`, and both have the models the rule asks for. */
  ghost predicate Makes(nodes: seq<Node>, edges: seq<Edge>, rule: Rule, a: string, c: string)
  {
    && a != c && IsOf(nodes, a, rule.parentModel) && IsOf(nodes, c, rule.childModel)
    && exists e :: e in edges && e.model == rule.viaEdgeModel && e.from == a && e.to == c
  }

  lemma ContainsExactly(nodes: seq<Node>, edges: seq<Edge>, rule: Rule, a: string, c: string)
    ensures Contains(NodeModels(nodes), rule, edges, a, c) <==> Makes(nodes, edges, rule, a, c)
  {
    hide NodeModels, IsOf;
    NodeModelsExactly(nodes, a, rule.parentModel);
    NodeModelsExactly(nodes, c, rule.childModel);
  }

  lemma {:induction false} InOrderIs(rules: map<string, Rule>, keys: seq<string>)
    requires forall k :: k in keys ==> k in rules
    ensures |InOrder(rules, keys)| == |keys| && forall i :: 0 <= i < |keys| ==> InOrder(rules, keys)[i] == rules[keys[i]]
  {
    if keys != [] {
      InOrderIs(rules, keys[..|keys| - 1]);
    }
  }

  /** What a node contains: the children some rule makes its own; and a node is a candidate if it has any. */
  lemma CandidatesExactly(locale: Order, nodes: seq<Node>, edges: seq<Edge>, rules: map<string, Rule>, a: string, c: string)
    requires StrictTotal(locale)
    ensures var cands := CandidatesOf(locale, nodes, edges, rules);
            (a in cands && c in cands[a].children) <==> exists k :: k in rules && Makes(nodes, edges, rules[k], a, c)
  {
    var keys := Sorted(locale, rules.Keys);
    var list := InOrder(rules, keys);
    ChildrenExact(NodeModels(nodes), list, edges, a, c);
    RulesListed(locale, rules);
    hide StrictTotal, Sorted, InOrder, Makes, Contains, AddRules, NodeModels;
    forall rule: Rule
      ensures Contains(NodeModels(nodes), rule, edges, a, c) <==> Makes(nodes, edges, rule, a, c)
    {
      ContainsExactly(nodes, edges, rule, a, c);
    }
    if k :| k in rules && Makes(nodes, edges, rules[k], a, c) {
      assert rules[k] in list;
    }
    if i :| 0 <= i < |list| && Contains(NodeModels(nodes), list[i], edges, a, c) {
      assert list[i] in list && Makes(nodes, edges, list[i], a, c);
    }
  }

  lemma RulesListed(locale: Order, rules: map<string, Rule>)
    requires StrictTotal(locale)
    ensures forall r :: r in InOrder(rules, Sorted(locale, rules.Keys)) <==> exists k :: k in rules && rules[k] == r
  {
    var keys := Sorted(locale, rules.Keys);
    var list := InOrder(rules, keys);
    InOrderIs(rules, keys);
    hide StrictTotal, Sorted, InOrder, Ascending;
    forall r
      ensures r in list <==> exists k :: k in rules && rules[k] == r
    {
      if r in list {
        var i :| 0 <= i < |list| && list[i] == r;
        assert keys[i] in keys;
      }
      if k :| k in rules && rules[k] == r {
        assert k in keys;
        var i :| 0 <= i < |keys| && keys[i] == k;
        assert list[i] == r;
      }
    }
  }

  /** This rule makes `a` the parent of something. */
  ghost predicate MakesParent(nodes: seq<Node>, edges: seq<Edge>, rule: Rule, a: string)
  {
    exists c :: Makes(nodes, edges, rule, a, c)
  }

  lemma ParentsExactly(nodes: seq<Node>, edges: seq<Edge>, rule: Rule, a: string)
    ensures a in Parents(NodeModels(nodes), rule, edges) <==> MakesParent(nodes, edges, rule, a)
  {
    hide NodeModels, Makes;
    if a in Parents(NodeModels(nodes), rule, edges) {
      var e :| e in edges && Applies(NodeModels(nodes), rule, e) && e.from == a;
      ContainsExactly(nodes, edges, rule, a, e.to);
      assert Makes(nodes, edges, rule, a, e.to);
    }
    if c :| Makes(nodes, edges, rule, a, c) {
      ContainsExactly(nodes, edges, rule, a, c);
    }
  }

  /** This rule makes `a` a parent, and no rule with a lesser key does. */
  ghost predicate LeastMaker(locale: Order, nodes: seq<Node>, edges: seq<Edge>, rules: map<string, Rule>, a: string, k: string)
  {
    && k in rules && MakesParent(nodes, edges, rules[k], a)
    && forall l :: l in rules && MakesParent(nodes, edges, rules[l], a) ==> l == k || locale(k, l)
  }

  /** A candidate is drawn by the rule with the least key among those that make it a parent. */
  lemma RuleOfLeastKey(locale: Order, nodes: seq<Node>, edges: seq<Edge>, rules: map<string, Rule>, a: string)
    requires StrictTotal(locale) && a in CandidatesOf(locale, nodes, edges, rules)
    ensures exists k :: k in rules && LeastMaker(locale, nodes, edges, rules, a, k) && CandidatesOf(locale, nodes, edges, rules)[a].rule == rules[k]
  {
    var keys := Sorted(locale, rules.Keys);
    assert Ascending(locale, keys);
    var list, models := InOrder(rules, keys), NodeModels(nodes);
    assert CandidatesOf(locale, nodes, edges, rules) == AddRules(models, list, edges);
    hide StrictTotal, Sorted, InOrder, LeastMaker, AddRules, NodeModels, Parents, CandidatesOf, Ascending;
    InOrderIs(rules, keys);
    FirstRuleKept(models, list, edges, a);
    var i :| 0 <= i < |list| && list[i] == AddRules(models, list, edges)[a].rule && a in Parents(models, list[i], edges)
             && forall j :: 0 <= j < i ==> a !in Parents(models, list[j], edges);
    LeastKey(locale, nodes, edges, rules, keys, a, i);
    assert keys[i] in keys && list[i] == rules[keys[i]];
  }

  lemma LeastKey(locale: Order, nodes: seq<Node>, edges: seq<Edge>, rules: map<string, Rule>, keys: seq<string>, a: string, i: nat)
    requires Ascending(locale, keys) && (forall k :: k in keys <==> k in rules) && i < |keys|
    requires a in Parents(NodeModels(nodes), rules[keys[i]], edges)
    requires forall j :: 0 <= j < i ==> a !in Parents(NodeModels(nodes), rules[keys[j]], edges)
    ensures LeastMaker(locale, nodes, edges, rules, a, keys[i])
  {
    hide MakesParent, NodeModels, Parents;
    assert keys[i] in keys;
    ParentsExactly(nodes, edges, rules[keys[i]], a);
    forall l | l in rules && MakesParent(nodes, edges, rules[l], a)
      ensures l == keys[i] || locale(keys[i], l)
    {
      assert l in keys;
      var j :| 0 <= j < |keys| && keys[j] == l;
      ParentsExactly(nodes, edges, rules[l], a);
      assert j >= i;
    }
  }
}
