/**
 What a statement of the fragment means on a property graph, and how the parts of a translated
 statement (its path, its labels, its conditions and parameters) mean what the query's clauses
 and filters do.
 */
module CypherMeaning {
  import opened Prelude
  import opened CypherSyntax
  import opened GraphQueries
  import opened CypherTranslate

  // ------------------------------------------------------- statement meaning

  function NodeVars(s: Statement): set<nat>
  {
    {s.head.v} + (set i | 0 <= i < |s.steps| :: s.steps[i].node.v)
  }

  function RelVars(steps: seq<Step>): set<nat>
  {
    set i | 0 <= i < |steps| :: steps[i].rel.v
  }

  function PatternVars(s: Statement): set<nat>
  {
    NodeVars(s) + RelVars(s.steps)
  }

  /** The chain of relationships and nodes that follows the node bound to `prev`. */
  predicate StepsHold(g: Graph, row: Row, prev: nat, steps: seq<Step>)
    decreases |steps|
  {
    steps == [] ||
    (var s := steps[0];
     && Traverses(g, row, prev, s.rel.v, s.rel.ty, s.rel.dir, s.node.v)
     && HasLabels(g, row, s.node.v, s.node.labels)
     && StepsHold(g, row, s.node.v, steps[1..]))
  }

  /** Three-valued, as in openCypher: `<>` is the negation of `=` and null whenever that is. */
  function CypherCompares(c: Comparison, op: CypherOp, lhs: Json, rhs: Json): Option<bool>
  {
    match op
    case OpEq => c.eq(lhs, rhs)
    case OpNe => if c.eq(lhs, rhs).Some? then Some(!c.eq(lhs, rhs).value) else None
    case OpGt => c.lt(rhs, lhs)
    case OpGe => c.le(rhs, lhs)
    case OpLt => c.lt(lhs, rhs)
    case OpLe => c.le(lhs, rhs)
    case OpContains => c.contains(lhs, rhs)
  }

  function EntityProps(g: Graph, e: Entity): map<string, Json>
  {
    match e
    case NodeEntity(id) => if id in g.nodes then g.nodes[id].props else map[]
    case RelEntity(id) => if id in g.rels then g.rels[id].props else map[]
  }

  /** WHERE lets only true through; a comparison with a missing property is null. */
  predicate PredHolds(g: Graph, c: Comparison, params: map<string, Json>, row: Row, p: Pred)
  {
    && p.v in row && ParamName(p.param) in params
    && match p
       case IdPred(v, i) => row[v].NodeEntity? && c.eq(Int(row[v].id), params[ParamName(i)]) == Some(true)
       case PropPred(v, key, op, i) =>
         var props := EntityProps(g, row[v]);
         key in props && CypherCompares(c, op, props[key], params[ParamName(i)]) == Some(true)
  }

  ghost predicate DistinctRelsIn(steps: seq<Step>, row: Row)
  {
    forall u, v :: u in RelVars(steps) && v in RelVars(steps) && u != v && u in row && v in row ==> row[u] != row[v]
  }

  /** One match of the pattern that WHERE lets through. */
  ghost predicate Matches(s: Statement, params: map<string, Json>, g: Graph, c: Comparison, isomorphic: bool, row: Row)
  {
    && row.Keys == PatternVars(s)
    && HasLabels(g, row, s.head.v, s.head.labels)
    && StepsHold(g, row, s.head.v, s.steps)
    && (forall p :: p in s.preds ==> PredHolds(g, c, params, row, p))
    && (isomorphic ==> DistinctRelsIn(s.steps, row))
  }

  /** The static rules a server checks before it runs a statement. */
  ghost predicate Executable(s: Statement, params: map<string, Json>)
  {
    && (forall i, j :: 0 <= i < j < |s.steps| ==> s.steps[i].rel.v != s.steps[j].rel.v)
    && NodeVars(s) !! RelVars(s.steps)
    && (forall p :: p in s.preds ==> p.v in PatternVars(s) && ParamName(p.param) in params)
    && (forall v :: v in s.columns ==> v in PatternVars(s))
    && NoDup(s.columns)
  }

  function Skip<T>(items: seq<T>, n: Option<nat>): seq<T>
  {
    if n.None? then items else if n.value <= |items| then items[n.value..] else []
  }

  function Limit<T>(items: seq<T>, n: Option<nat>): seq<T>
  {
    if n.None? || |items| <= n.value then items else items[..n.value]
  }

  function Project(rows: seq<Row>, columns: seq<nat>): seq<Row>
  {
    seq(|rows|, i requires 0 <= i < |rows| => map v | v in columns && v in rows[i] :: rows[i][v])
  }

  /** Matches in some order, projected to the columns, then SKIP, then LIMIT. */
  ghost predicate Results(s: Statement, params: map<string, Json>, g: Graph, c: Comparison, isomorphic: bool, rows: seq<Row>)
  {
    exists all: seq<Row> :: Enumerates(all, row => Matches(s, params, g, c, isomorphic, row))
                            && rows == Limit(Skip(Project(all, s.columns), s.skip), s.limit)
  }

  // ---------------------------------------------------------- linear queries

  /** Every hop starts where the previous one ended. */
  predicate Chain(prev: nat, ms: seq<MatchClause>)
    decreases |ms|
  {
    ms == [] ||
    match ms[0]
    case Node(_) => Chain(prev, ms[1..])
    case Hop(h) => h.start == prev && Chain(h.end, ms[1..])
  }

  /** One node match per variable, one binding per hop variable, nodes and relationships apart. */
  ghost predicate DistinctVars(ms: seq<MatchClause>)
  {
    && (forall i, j :: 0 <= i < j < |ms| && ms[i].Node? && ms[j].Node? ==> ms[i].node.v != ms[j].node.v)
    && (forall i, j :: 0 <= i < j < |ms| && ms[i].Hop? && ms[j].Hop? ==>
          ms[i].hop.relVar != ms[j].hop.relVar && ms[i].hop.end != ms[j].hop.end)
    && (forall i, j :: 0 <= i < |ms| && 0 <= j < |ms| && ms[i].Hop? && ms[j].Hop? ==> ms[i].hop.relVar != ms[j].hop.end)
    && (forall i, j :: 0 <= i < |ms| && 0 <= j < |ms| && ms[i].Hop? && ms[j].Node? ==> ms[i].hop.relVar != ms[j].node.v)
    && (forall i :: 0 <= i < |ms| && ms[i].Hop? && ms[0].Node? ==> ms[i].hop.end != ms[0].node.v)
  }

  /** Every node match after the root is for the end of some hop. */
  ghost predicate Attached(ms: seq<MatchClause>)
  {
    forall i :: 0 < i < |ms| && ms[i].Node? ==>
      exists j :: 0 <= j < |ms| && ms[j].Hop? && ms[j].hop.end == ms[i].node.v
  }

  ghost predicate Linear(q: GraphQuery)
    requires Valid(q)
  {
    Chain(RootVar(q), q.matches[1..]) && DistinctVars(q.matches) && Attached(q.matches)
  }

  // ------------------------------------------------------ pattern and clauses

  lemma {:induction false} NodeMatchesMember(ms: seq<MatchClause>, i: nat)
    requires DistinctVars(ms) && i < |ms| && ms[i].Node?
    ensures ms[i].node.v in NodeMatches(ms) && NodeMatches(ms)[ms[i].node.v] == ms[i].node
  {
    if i < |ms| - 1 {
      NodeMatchesMember(ms[..|ms| - 1], i);
    }
  }

  lemma RelabelsFromMap(q: GraphQuery, v: nat)
    requires Valid(q) && DistinctVars(q.matches)
    ensures Relabels(q, v) <==> v in NodeMatches(q.matches) && NodeMatches(q.matches)[v].labels != []
  {
    var nm := NodeMatches(q.matches);
    if v in nm && nm[v].labels != [] {
      NodeMatchesKeys(q.matches, v);
      var m := Node(nm[v]);
      assert m in q.matches && m.Node? && m.node.v == v && m.node.labels != [];
    }
    if Relabels(q, v) {
      var i :| 0 <= i < |q.matches| && q.matches[i].Node? && q.matches[i].node.v == v && q.matches[i].node.labels != [];
      NodeMatchesMember(q.matches, i);
    }
  }

  predicate HopHolds(nm: map<nat, NodeMatch>, g: Graph, row: Row, h: HopMatch)
  {
    && Traverses(g, row, h.start, h.relVar, h.relType, h.dir, h.end)
    && HasLabels(g, row, h.end, EndLabels(nm, h))
  }

  /** Along a chain the pattern says of each hop what the hop says itself. */
  lemma {:induction false} StepsMeanHops(nm: map<nat, NodeMatch>, g: Graph, row: Row, prev: nat, ms: seq<MatchClause>)
    requires Chain(prev, ms)
    ensures StepsHold(g, row, prev, StepsOf(nm, ms)) <==> forall m :: m in ms && m.Hop? ==> HopHolds(nm, g, row, m.hop)
    decreases |ms|
  {
    if ms != [] {
      assert ms == [ms[0]] + ms[1..];
      if ms[0].Hop? {
        StepsMeanHops(nm, g, row, ms[0].hop.end, ms[1..]);
        assert StepsOf(nm, ms)[1..] == StepsOf(nm, ms[1..]);
      } else {
        StepsMeanHops(nm, g, row, prev, ms[1..]);
        assert StepsOf(nm, ms) == StepsOf(nm, ms[1..]);
      }
    }
  }

  predicate NodeConditions(g: Graph, c: Comparison, row: Row, n: NodeMatch)
    requires IsNode(g, row, n.v)
  {
    && (n.idFilter.Some? ==> row[n.v].id == n.idFilter.value)
    && forall f :: f in n.filters ==> FilterHolds(c, g.nodes[row[n.v].id].props, f)
  }

  ghost predicate PatternHolds(q: GraphQuery, g: Graph, row: Row)
    requires Valid(q)
  {
    && HasLabels(g, row, RootVar(q), q.matches[0].node.labels)
    && forall m :: m in q.matches && m.Hop? ==> HopHolds(NodeMatches(q.matches), g, row, m.hop)
  }

  /** Under the pattern, every node match's labels hold, whichever hop it is attached to. */
  lemma PatternGivesLabels(q: GraphQuery, g: Graph, row: Row, n: NodeMatch)
    requires Valid(q) && Linear(q) && PatternHolds(q, g, row) && Node(n) in q.matches
    ensures HasLabels(g, row, n.v, n.labels)
  {
    var i :| 0 <= i < |q.matches| && q.matches[i] == Node(n);
    if i > 0 {
      NodeMatchesMember(q.matches, i);
      var j :| 0 <= j < |q.matches| && q.matches[j].Hop? && q.matches[j].hop.end == n.v;
      assert q.matches[j] in q.matches;
      assert HopHolds(NodeMatches(q.matches), g, row, q.matches[j].hop);
    }
  }

  lemma ClausesArePattern(q: GraphQuery, g: Graph, c: Comparison, row: Row)
    requires Valid(q) && Linear(q)
    ensures (forall m :: m in q.matches ==> ClauseHolds(q, g, c, row, m))
            <==> PatternHolds(q, g, row)
                 && forall n: NodeMatch :: Node(n) in q.matches ==> IsNode(g, row, n.v) && NodeConditions(g, c, row, n)
  {
    var nm := NodeMatches(q.matches);
    if forall m :: m in q.matches ==> ClauseHolds(q, g, c, row, m) {
      assert q.matches[0] in q.matches;
      forall m | m in q.matches && m.Hop?
        ensures HopHolds(nm, g, row, m.hop)
      {
        RelabelsFromMap(q, m.hop.end);
        assert ClauseHolds(q, g, c, row, m);
        if Relabels(q, m.hop.end) {
          NodeMatchesKeys(q.matches, m.hop.end);
          assert ClauseHolds(q, g, c, row, Node(nm[m.hop.end]));
        }
      }
    }
    if PatternHolds(q, g, row)
       && forall n: NodeMatch :: Node(n) in q.matches ==> IsNode(g, row, n.v) && NodeConditions(g, c, row, n) {
      forall m | m in q.matches
        ensures ClauseHolds(q, g, c, row, m)
      {
        match m
        case Node(n) =>
          PatternGivesLabels(q, g, row, n);
        case Hop(h) =>
          RelabelsFromMap(q, h.end);
          assert HopHolds(nm, g, row, h);
      }
    }
  }

  // --------------------------------------------------- conditions, parameters

  predicate CondHolds(g: Graph, c: Comparison, row: Row, cond: Cond)
  {
    && IsNode(g, row, cond.v)
    && match cond
       case IdCond(v, id) => row[v].id == id
       case PropCond(v, f) => FilterHolds(c, g.nodes[row[v].id].props, f)
  }

  lemma ParamNamesDistinct(i: nat, j: nat)
    requires i != j
    ensures ParamName(i) != ParamName(j)
  {
    if ParamName(i) == ParamName(j) {
      assert Dec(i) == ParamName(i)[1..] == Dec(j);
      DecInjective(i, j);
    }
  }

  ghost predicate Binds(params: map<string, Json>, conds: seq<Cond>)
  {
    forall i :: 0 <= i < |conds| ==> ParamName(i) in params && params[ParamName(i)] == ValueOf(conds[i])
  }

  /** The names of the first `n` parameters. */
  function ParamNames(n: nat): set<string>
  {
    if n == 0 then {} else ParamNames(n - 1) + {ParamName(n - 1)}
  }

  lemma {:induction false} ParamNamesFresh(n: nat, i: nat)
    requires n <= i
    ensures ParamName(i) !in ParamNames(n)
  {
    hide Dec;
    if n > 0 {
      ParamNamesFresh(n - 1, i);
      ParamNamesDistinct(n - 1, i);
    }
  }

  lemma {:induction false} ParamNamesMember(n: nat, i: nat)
    requires i < n
    ensures ParamName(i) in ParamNames(n)
  {
    hide Dec;
    if i < n - 1 {
      ParamNamesMember(n - 1, i);
    }
  }

  /**
   Parameter allocation is exact for any number of conditions: one entry each, the i-th
   predicate's parameter bound to the i-th condition's value, and no entry besides.
   */
  lemma {:induction false} ParamsExact(conds: seq<Cond>)
    ensures Binds(ParamsOf(conds), conds)
    ensures ParamsOf(conds).Keys == ParamNames(|conds|)
    ensures |ParamsOf(conds)| == |conds|
  {
    hide Dec;
    if conds != [] {
      var n := |conds| - 1;
      var before := ParamsOf(conds[..n]);
      ParamsExact(conds[..n]);
      ParamNamesFresh(n, n);
      forall i | 0 <= i < n
        ensures ParamName(i) != ParamName(n) && ParamName(i) in before && before[ParamName(i)] == ValueOf(conds[i])
      {
        ParamNamesDistinct(i, n);
        assert conds[..n][i] == conds[i];
      }
    }
  }

  lemma PredMeansCond(g: Graph, c: Comparison, params: map<string, Json>, row: Row, cond: Cond, i: nat)
    requires ComparesIds(c) && IsNode(g, row, cond.v)
    requires ParamName(i) in params && params[ParamName(i)] == ValueOf(cond)
    ensures PredHolds(g, c, params, row, PredOf(cond, i)) <==> CondHolds(g, c, row, cond)
  {
  }

  lemma PredsMeanConds(g: Graph, c: Comparison, row: Row, conds: seq<Cond>)
    requires ComparesIds(c)
    requires forall cond :: cond in conds ==> IsNode(g, row, cond.v)
    ensures (forall p :: p in PredsOf(conds) ==> PredHolds(g, c, ParamsOf(conds), row, p))
            <==> forall cond :: cond in conds ==> CondHolds(g, c, row, cond)
  {
    hide Dec;
    var preds, params := PredsOf(conds), ParamsOf(conds);
    ParamsExact(conds);
    forall i | 0 <= i < |conds|
      ensures PredHolds(g, c, params, row, preds[i]) <==> CondHolds(g, c, row, conds[i])
    {
      PredMeansCond(g, c, params, row, conds[i], i);
    }
    if forall p :: p in preds ==> PredHolds(g, c, params, row, p) {
      forall i | 0 <= i < |conds|
        ensures CondHolds(g, c, row, conds[i])
      {
        assert preds[i] in preds;
      }
    }
  }

  lemma {:induction false} CondsAtMembers(nm: map<nat, NodeMatch>, order: seq<nat>, cond: Cond)
    requires forall v :: v in order ==> v in nm
    ensures cond in CondsAt(nm, order) <==> exists v :: v in order && cond in NodeConds(nm[v])
  {
    if order != [] {
      var last := order[|order| - 1];
      var init := order[..|order| - 1];
      assert order == init + [last];
      CondsAtMembers(nm, init, cond);
      if cond in NodeConds(nm[last]) {
        assert last in order;
      }
      if v :| v in init && cond in NodeConds(nm[v]) {
        assert v in order;
      }
    }
  }

  lemma FilterCondsMembers(v: nat, filters: seq<PropertyFilter>, cond: Cond)
    ensures cond in FilterConds(v, filters) <==> cond.PropCond? && cond.v == v && cond.filter in filters
  {
    if cond.PropCond? && cond.v == v && cond.filter in filters {
      var i :| 0 <= i < |filters| && filters[i] == cond.filter;
      assert FilterConds(v, filters)[i] == cond;
    }
  }

  lemma NodeCondsMeaning(g: Graph, c: Comparison, row: Row, n: NodeMatch)
    requires IsNode(g, row, n.v)
    ensures (forall cond :: cond in NodeConds(n) ==> CondHolds(g, c, row, cond)) <==> NodeConditions(g, c, row, n)
  {
    var conds := NodeConds(n);
    if n.idFilter.Some? {
      assert conds[0] == IdCond(n.v, n.idFilter.value);
    }
    forall cond | cond in FilterConds(n.v, n.filters)
      ensures cond in conds && cond.PropCond? && cond.v == n.v && cond.filter in n.filters
    {
      FilterCondsMembers(n.v, n.filters, cond);
    }
    forall f | f in n.filters
      ensures PropCond(n.v, f) in conds
    {
      FilterCondsMembers(n.v, n.filters, PropCond(n.v, f));
    }
    if NodeConditions(g, c, row, n) {
      forall cond | cond in conds
        ensures CondHolds(g, c, row, cond)
      {
        assert cond in FilterConds(n.v, n.filters) || (n.idFilter.Some? && cond == IdCond(n.v, n.idFilter.value));
      }
    } else if !(forall f :: f in n.filters ==> FilterHolds(c, g.nodes[row[n.v].id].props, f)) {
      var f :| f in n.filters && !FilterHolds(c, g.nodes[row[n.v].id].props, f);
      assert !CondHolds(g, c, row, PropCond(n.v, f));
    } else {
      assert !CondHolds(g, c, row, IdCond(n.v, n.idFilter.value));
    }
  }

  /** A condition of the query comes from one of its node matches or from `wheres` on the root. */
  lemma CondsOfMembers(q: GraphQuery, cond: Cond)
    requires Valid(q) && DistinctVars(q.matches)
    ensures cond in CondsOf(q) <==>
            (exists n: NodeMatch :: Node(n) in q.matches && cond in NodeConds(n)) || cond in FilterConds(RootVar(q), q.wheres)
  {
    var nm := NodeMatches(q.matches);
    CondsAtMembers(nm, Ascending(nm.Keys), cond);
    if v :| v in nm && cond in NodeConds(nm[v]) {
      NodeMatchesKeys(q.matches, v);
      assert Node(nm[v]) in q.matches;
    }
    if n: NodeMatch :| Node(n) in q.matches && cond in NodeConds(n) {
      var i :| 0 <= i < |q.matches| && q.matches[i] == Node(n);
      NodeMatchesMember(q.matches, i);
      assert n.v in nm && cond in NodeConds(nm[n.v]);
    }
  }

  lemma NodeCondsVar(n: NodeMatch, cond: Cond)
    requires cond in NodeConds(n)
    ensures cond.v == n.v
  {
    if cond in FilterConds(n.v, n.filters) {
      FilterCondsMembers(n.v, n.filters, cond);
    }
  }

  lemma CondsMeanFilters(q: GraphQuery, g: Graph, c: Comparison, row: Row)
    requires Valid(q) && DistinctVars(q.matches)
    requires forall n: NodeMatch :: Node(n) in q.matches ==> IsNode(g, row, n.v)
    ensures (forall cond :: cond in CondsOf(q) ==> IsNode(g, row, cond.v))
    ensures (forall cond :: cond in CondsOf(q) ==> CondHolds(g, c, row, cond))
            <==> (forall n: NodeMatch :: Node(n) in q.matches ==> NodeConditions(g, c, row, n))
                 && IsNode(g, row, RootVar(q))
                 && forall f :: f in q.wheres ==> FilterHolds(c, g.nodes[row[RootVar(q)].id].props, f)
  {
    var root := RootVar(q);
    assert Node(q.matches[0].node) in q.matches;
    forall cond | cond in CondsOf(q)
      ensures IsNode(g, row, cond.v)
    {
      CondsOfMembers(q, cond);
      FilterCondsMembers(root, q.wheres, cond);
      if n: NodeMatch :| Node(n) in q.matches && cond in NodeConds(n) {
        NodeCondsVar(n, cond);
      }
    }
    if forall cond :: cond in CondsOf(q) ==> CondHolds(g, c, row, cond) {
      forall n: NodeMatch | Node(n) in q.matches
        ensures NodeConditions(g, c, row, n)
      {
        forall cond | cond in NodeConds(n)
          ensures CondHolds(g, c, row, cond)
        {
          CondsOfMembers(q, cond);
        }
        NodeCondsMeaning(g, c, row, n);
      }
      forall f | f in q.wheres
        ensures FilterHolds(c, g.nodes[row[root].id].props, f)
      {
        FilterCondsMembers(root, q.wheres, PropCond(root, f));
        CondsOfMembers(q, PropCond(root, f));
        assert CondHolds(g, c, row, PropCond(root, f));
      }
    }
    if (forall n: NodeMatch :: Node(n) in q.matches ==> NodeConditions(g, c, row, n))
       && forall f :: f in q.wheres ==> FilterHolds(c, g.nodes[row[root].id].props, f) {
      forall cond | cond in CondsOf(q)
        ensures CondHolds(g, c, row, cond)
      {
        CondsOfMembers(q, cond);
        FilterCondsMembers(root, q.wheres, cond);
        if n: NodeMatch :| Node(n) in q.matches && cond in NodeConds(n) {
          NodeCondsMeaning(g, c, row, n);
        }
      }
    }
  }
}
