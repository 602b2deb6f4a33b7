/**
 The kernel graph query (src/dsl/graph.rs), property graphs, and what a query means:
 a row binds every variable the query introduces to a node or relationship of the graph so
 that every match clause and filter holds.
 */
module GraphQueries {
  import opened Prelude
  import opened CypherSyntax

  /** JSON values as the kernel stores them. */
  datatype Json =
    | Null
    | Bool(b: bool)
    | Int(i: int)
    | Float(r: real)
    | Str(s: string)
    | Array(items: seq<Json>)
    | Object(fields: map<string, Json>)

  datatype CompareOp = Eq | Ne | Gt | Ge | Lt | Le | Contains

  datatype PropertyFilter = PropertyFilter(key: string, op: CompareOp, value: Json)

  datatype NodeMatch = NodeMatch(v: nat, labels: seq<string>, idFilter: Option<int>, filters: seq<PropertyFilter>)

  datatype HopMatch = HopMatch(
    start: nat,
    relType: Option<string>,
    relVar: nat,
    dir: Direction,
    end: nat,
    endLabels: seq<string>)

  datatype MatchClause = Node(node: NodeMatch) | Hop(hop: HopMatch)

  datatype Return = ReturnNode(v: nat) | ReturnRel(v: nat)

  datatype GraphQuery = GraphQuery(
    matches: seq<MatchClause>,
    wheres: seq<PropertyFilter>,
    ret: Return,
    limit: Option<nat>,
    offset: Option<nat>)

  datatype QueryError = NoMatchClauses | MustStartWithNode | StartNotBound(v: nat)

  // -------------------------------------------------------------- validation

  /** Node variables bound by the first `i` clauses. */
  function BoundNodes(ms: seq<MatchClause>, i: nat): set<nat>
    requires i <= |ms|
  {
    if i == 0 then {}
    else BoundNodes(ms, i - 1) + {if ms[i - 1].Node? then ms[i - 1].node.v else ms[i - 1].hop.end}
  }

  /** Every hop among the first `n` clauses starts at a node bound before it. */
  ghost predicate ValidUpTo(ms: seq<MatchClause>, n: nat)
    requires n <= |ms|
  {
    forall i :: 0 < i < n && ms[i].Hop? ==> ms[i].hop.start in BoundNodes(ms, i)
  }

  ghost predicate Valid(q: GraphQuery)
  {
    q.matches != [] && q.matches[0].Node? && ValidUpTo(q.matches, |q.matches|)
  }

  method Validate(q: GraphQuery) returns (error: Option<QueryError>)
    ensures error.None? <==> Valid(q)
    ensures error == Some(NoMatchClauses) <==> q.matches == []
    ensures error == Some(MustStartWithNode) <==> q.matches != [] && q.matches[0].Hop?
    ensures forall v :: error == Some(StartNotBound(v)) ==>
                          exists i :: 0 < i < |q.matches| && q.matches[i].Hop? && q.matches[i].hop.start == v
                                      && v !in BoundNodes(q.matches, i) && ValidUpTo(q.matches, i)
  {
    if q.matches == [] {
      return Some(NoMatchClauses);
    }
    if q.matches[0].Hop? {
      return Some(MustStartWithNode);
    }
    var bound := {q.matches[0].node.v};
    assert bound == BoundNodes(q.matches, 1);
    for i := 1 to |q.matches|
      invariant bound == BoundNodes(q.matches, i)
      invariant ValidUpTo(q.matches, i)
    {
      match q.matches[i]
      case Node(n) =>
        bound := bound + {n.v};
      case Hop(h) =>
        if h.start !in bound {
          return Some(StartNotBound(h.start));
        }
        bound := bound + {h.end};
    }
    return None;
  }

  // --------------------------------------------------------- bound variables

  function ClauseVars(m: MatchClause): seq<nat>
  {
    match m
    case Node(n) => [n.v]
    case Hop(h) => [h.relVar, h.end]
  }

  function IntroVars(ms: seq<MatchClause>): seq<nat>
  {
    if ms == [] then [] else IntroVars(ms[..|ms| - 1]) + ClauseVars(ms[|ms| - 1])
  }

  /** Rust's `Vec::dedup`: only consecutive repetitions go. */
  function Dedup(s: seq<nat>): (r: seq<nat>)
    ensures forall v :: v in r <==> v in s
    ensures s != [] ==> r != [] && r[|r| - 1] == s[|s| - 1]
  {
    if s == [] then []
    else
      var init := Dedup(s[..|s| - 1]);
      assert s == s[..|s| - 1] + [s[|s| - 1]];
      if init != [] && init[|init| - 1] == s[|s| - 1] then init else init + [s[|s| - 1]]
  }

  function BoundVars(q: GraphQuery): seq<nat>
  {
    Dedup(IntroVars(q.matches))
  }

  function RootVar(q: GraphQuery): nat
    requires q.matches != [] && q.matches[0].Node?
  {
    q.matches[0].node.v
  }

  // ------------------------------------------------------------------ graphs

  datatype NodeRec = NodeRec(labels: set<string>, props: map<string, Json>)

  datatype RelRec = RelRec(ty: string, from: int, to: int, props: map<string, Json>)

  datatype Graph = Graph(nodes: map<int, NodeRec>, rels: map<int, RelRec>)

  datatype Entity = NodeEntity(id: int) | RelEntity(id: int)

  type Row = map<nat, Entity>

  /**
   How stored values compare; no truth value is openCypher's null. The translation is proved
   for every such interpretation; the only law needed is that integer ids are equal exactly
   when they are the same id.
   */
  datatype Comparison = Comparison(
    eq: (Json, Json) -> Option<bool>,
    lt: (Json, Json) -> Option<bool>,
    le: (Json, Json) -> Option<bool>,
    contains: (Json, Json) -> Option<bool>)

  ghost predicate ComparesIds(c: Comparison)
  {
    forall a: int, b: int :: c.eq(Int(a), Int(b)) == Some(a == b)
  }

  /** Whether a stored value passes; an unknown comparison never does. */
  function Compares(c: Comparison, op: CompareOp, stored: Json, value: Json): bool
  {
    match op
    case Eq => c.eq(stored, value) == Some(true)
    case Ne => c.eq(stored, value) == Some(false)
    case Gt => c.lt(value, stored) == Some(true)
    case Ge => c.le(value, stored) == Some(true)
    case Lt => c.lt(stored, value) == Some(true)
    case Le => c.le(stored, value) == Some(true)
    case Contains => c.contains(stored, value) == Some(true)
  }

  /** A filter on a missing property does not hold (src/dsl/eval.rs). */
  predicate FilterHolds(c: Comparison, props: map<string, Json>, f: PropertyFilter)
  {
    f.key in props && Compares(c, f.op, props[f.key], f.value)
  }

  predicate IsNode(g: Graph, row: Row, v: nat)
  {
    v in row && row[v].NodeEntity? && row[v].id in g.nodes
  }

  predicate IsRel(g: Graph, row: Row, v: nat)
  {
    v in row && row[v].RelEntity? && row[v].id in g.rels
  }

  predicate HasLabels(g: Graph, row: Row, v: nat, labels: seq<string>)
  {
    IsNode(g, row, v) && forall l :: l in labels ==> l in g.nodes[row[v].id].labels
  }

  predicate Connects(dir: Direction, rel: RelRec, start: int, end: int)
  {
    match dir
    case Out => rel.from == start && rel.to == end
    case In => rel.from == end && rel.to == start
    case Both => (rel.from == start && rel.to == end) || (rel.from == end && rel.to == start)
  }

  predicate Traverses(g: Graph, row: Row, start: nat, relVar: nat, ty: Option<string>, dir: Direction, end: nat)
  {
    && IsNode(g, row, start) && IsRel(g, row, relVar) && IsNode(g, row, end)
    && (ty.Some? ==> g.rels[row[relVar].id].ty == ty.value)
    && Connects(dir, g.rels[row[relVar].id], row[start].id, row[end].id)
  }

  /**
   The laws of a hop: it reads the other way round with its direction turned, a hop of either
   direction is a hop of one of the two, and a type only narrows it.
   */
  lemma HopLaws(g: Graph, row: Row, start: nat, relVar: nat, ty: string, dir: Direction, end: nat)
    ensures Traverses(g, row, start, relVar, None, Out, end)
            <==> IsNode(g, row, start) && IsRel(g, row, relVar) && IsNode(g, row, end)
                 && g.rels[row[relVar].id].from == row[start].id && g.rels[row[relVar].id].to == row[end].id
    ensures Traverses(g, row, start, relVar, None, In, end) <==> Traverses(g, row, end, relVar, None, Out, start)
    ensures Traverses(g, row, start, relVar, None, Both, end)
            <==> Traverses(g, row, start, relVar, None, Out, end) || Traverses(g, row, start, relVar, None, In, end)
    ensures Traverses(g, row, start, relVar, Some(ty), dir, end)
            <==> Traverses(g, row, start, relVar, None, dir, end) && g.rels[row[relVar].id].ty == ty
  {
  }

  /** Without labels any node will do, and each label asks for one more. */
  lemma LabelLaws(g: Graph, row: Row, v: nat, labels: seq<string>, name: string)
    ensures HasLabels(g, row, v, []) <==> IsNode(g, row, v)
    ensures HasLabels(g, row, v, labels + [name]) <==> HasLabels(g, row, v, labels) && name in g.nodes[row[v].id].labels
  {
    assert name in labels + [name];
    assert forall l :: l in labels ==> l in labels + [name];
  }

  // ----------------------------------------------------------- query meaning

  /** Some `NodeMatch` of the query is for `v` and names labels of its own. */
  ghost predicate Relabels(q: GraphQuery, v: nat)
  {
    exists m :: m in q.matches && m.Node? && m.node.v == v && m.node.labels != []
  }

  ghost predicate ClauseHolds(q: GraphQuery, g: Graph, c: Comparison, row: Row, m: MatchClause)
  {
    match m
    case Node(n) =>
      && HasLabels(g, row, n.v, n.labels)
      && (n.idFilter.Some? ==> row[n.v].id == n.idFilter.value)
      && forall f :: f in n.filters ==> FilterHolds(c, g.nodes[row[n.v].id].props, f)
    case Hop(h) =>
      && Traverses(g, row, h.start, h.relVar, h.relType, h.dir, h.end)
      // labels of a NodeMatch for the end replace the hop's own
      && (Relabels(q, h.end) || HasLabels(g, row, h.end, h.endLabels))
  }

  /** Relationship isomorphism, when the executor asks for it: no relationship is used twice. */
  ghost predicate DistinctRels(q: GraphQuery, row: Row)
  {
    forall i, j :: 0 <= i < j < |q.matches| && q.matches[i].Hop? && q.matches[j].Hop?
                   && q.matches[i].hop.relVar in row && q.matches[j].hop.relVar in row
                   ==> row[q.matches[i].hop.relVar] != row[q.matches[j].hop.relVar]
  }

  ghost predicate IsAnswer(q: GraphQuery, g: Graph, c: Comparison, isomorphic: bool, row: Row)
    requires Valid(q)
  {
    && row.Keys == (set v | v in IntroVars(q.matches))
    && (forall m :: m in q.matches ==> ClauseHolds(q, g, c, row, m))
    && IsNode(g, row, RootVar(q))
    && (forall f :: f in q.wheres ==> FilterHolds(c, g.nodes[row[RootVar(q)].id].props, f))
    && (isomorphic ==> DistinctRels(q, row))
  }

  /** src/dsl/paging.rs. */
  function ApplyPaging<T>(items: seq<T>, offset: Option<nat>, limit: Option<nat>): seq<T>
  {
    var start := if offset.Some? then offset.value else 0;
    if start >= |items| then []
    else
      var end := if limit.Some? && start + limit.value < |items| then start + limit.value else |items|;
      items[start..end]
  }

  /** `rows` is a possible result: some enumeration of the answers, paged. */
  ghost predicate Answers(q: GraphQuery, g: Graph, c: Comparison, isomorphic: bool, rows: seq<Row>)
    requires Valid(q)
  {
    exists all: seq<Row> :: Enumerates(all, row => IsAnswer(q, g, c, isomorphic, row))
                            && rows == ApplyPaging(all, q.offset, q.limit)
  }
}
