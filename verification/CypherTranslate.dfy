/**
 The translator of src/backend/cypher.rs. `Translate` and `ParamsOf` say which statement and
 parameter map a query becomes; the methods build the text and the map the way the source
 does, clause by clause, and are proved to produce exactly the printed form of that statement.
 */
module CypherTranslate {
  import opened Prelude
  import opened CypherSyntax
  import opened GraphQueries

  // ------------------------------------------------- statement for a query

  /** One entry per variable; a later `NodeMatch` for the same variable wins. */
  function NodeMatches(ms: seq<MatchClause>): map<nat, NodeMatch>
  {
    if ms == [] then map[]
    else
      var m := ms[|ms| - 1];
      var rest := NodeMatches(ms[..|ms| - 1]);
      if m.Node? then rest[m.node.v := m.node] else rest
  }

  function EndLabels(nm: map<nat, NodeMatch>, h: HopMatch): seq<string>
  {
    if h.end in nm && nm[h.end].labels != [] then nm[h.end].labels else h.endLabels
  }

  function StepOf(nm: map<nat, NodeMatch>, h: HopMatch): Step
  {
    Step(RelPat(h.relVar, h.relType, h.dir), NodePat(h.end, EndLabels(nm, h)))
  }

  function StepsOf(nm: map<nat, NodeMatch>, ms: seq<MatchClause>): seq<Step>
  {
    if ms == [] then []
    else (if ms[0].Hop? then [StepOf(nm, ms[0].hop)] else []) + StepsOf(nm, ms[1..])
  }

  /** A condition before it is given a parameter. */
  datatype Cond = IdCond(v: nat, id: int) | PropCond(v: nat, filter: PropertyFilter)

  function FilterConds(v: nat, filters: seq<PropertyFilter>): seq<Cond>
  {
    seq(|filters|, i requires 0 <= i < |filters| => PropCond(v, filters[i]))
  }

  function NodeConds(n: NodeMatch): seq<Cond>
  {
    (if n.idFilter.Some? then [IdCond(n.v, n.idFilter.value)] else []) + FilterConds(n.v, n.filters)
  }

  predicate IsLeast(x: nat, s: set<nat>)
  {
    x in s && forall y :: y in s ==> x <= y
  }

  lemma {:induction false} HasLeast(s: set<nat>)
    requires s != {}
    ensures exists x :: IsLeast(x, s)
  {
    var x :| x in s;
    if s == {x} {
      assert IsLeast(x, s);
    } else {
      HasLeast(s - {x});
      var rest :| IsLeast(rest, s - {x});
      assert forall y :: y in s ==> y == x || y in s - {x};
      assert IsLeast(if x <= rest then x else rest, s);
    }
  }

  function Least(s: set<nat>): (x: nat)
    requires s != {}
    ensures IsLeast(x, s)
  {
    HasLeast(s);
    var x :| IsLeast(x, s);
    x
  }

  /** The iteration order of a `BTreeMap`: keys ascending. */
  function Ascending(s: set<nat>): (r: seq<nat>)
    ensures forall x :: x in r <==> x in s
    ensures forall i, j :: 0 <= i < j < |r| ==> r[i] < r[j]
  {
    if s == {} then []
    else
      var x := Least(s);
      [x] + Ascending(s - {x})
  }

  function CondsAt(nm: map<nat, NodeMatch>, order: seq<nat>): seq<Cond>
    requires forall v :: v in order ==> v in nm
  {
    if order == [] then []
    else CondsAt(nm, order[..|order| - 1]) + NodeConds(nm[order[|order| - 1]])
  }

  function CondsOf(q: GraphQuery): seq<Cond>
    requires Valid(q)
  {
    var nm := NodeMatches(q.matches);
    CondsAt(nm, Ascending(nm.Keys)) + FilterConds(RootVar(q), q.wheres)
  }

  function OpOf(op: CompareOp): CypherOp
  {
    match op
    case Eq => OpEq
    case Ne => OpNe
    case Gt => OpGt
    case Ge => OpGe
    case Lt => OpLt
    case Le => OpLe
    case Contains => OpContains
  }

  function PredOf(c: Cond, i: nat): Pred
  {
    match c
    case IdCond(v, _) => IdPred(v, i)
    case PropCond(v, f) => PropPred(v, f.key, OpOf(f.op), i)
  }

  function ValueOf(c: Cond): Json
  {
    match c
    case IdCond(_, id) => Int(id)
    case PropCond(_, f) => f.value
  }

  /** Conditions take parameters 0, 1, 2, ... in order. */
  function PredsOf(conds: seq<Cond>): (preds: seq<Pred>)
    ensures |preds| == |conds|
    ensures forall i :: 0 <= i < |conds| ==> preds[i] == PredOf(conds[i], i)
  {
    if conds == [] then []
    else PredsOf(conds[..|conds| - 1]) + [PredOf(conds[|conds| - 1], |conds| - 1)]
  }

  function ParamsOf(conds: seq<Cond>): map<string, Json>
  {
    if conds == [] then map[]
    else ParamsOf(conds[..|conds| - 1])[ParamName(|conds| - 1) := ValueOf(conds[|conds| - 1])]
  }

  function Translate(q: GraphQuery): Statement
    requires Valid(q)
  {
    var nm := NodeMatches(q.matches);
    Statement(
      NodePat(RootVar(q), q.matches[0].node.labels),
      StepsOf(nm, q.matches[1..]),
      PredsOf(CondsOf(q)),
      BoundVars(q),
      q.offset,
      q.limit)
  }

  // ---------------------------------------------------------- the translator

  class Translator {
    var params: map<string, Json>
    var nextParam: nat

    /** The translator has allocated parameters for exactly `conds`, in order. */
    ghost predicate Allocated(conds: seq<Cond>)
      reads this
    {
      params == ParamsOf(conds) && nextParam == |conds|
    }

    constructor ()
      ensures Allocated([])
    {
      params, nextParam := map[], 0;
    }

    method PushParam(value: Json, ghost conds: seq<Cond>, ghost cond: Cond) returns (name: string)
      requires Allocated(conds) && ValueOf(cond) == value
      modifies this
      ensures Allocated(conds + [cond])
      ensures name == ParamName(|conds|)
    {
      name := "p" + Dec(nextParam);
      nextParam := nextParam + 1;
      params := params[name := value];
      assert (conds + [cond])[..|conds|] == conds;
    }
  }

  method PropertyPredicate(v: nat, f: PropertyFilter, t: Translator, ghost conds: seq<Cond>) returns (text: string)
    requires t.Allocated(conds)
    modifies t
    ensures t.Allocated(conds + [PropCond(v, f)])
    ensures text == ShowPred(PredOf(PropCond(v, f), |conds|))
  {
    var param := t.PushParam(f.value, conds, PropCond(v, f));
    var prop := ShowVar(v) + "." + ShowName(f.key);
    PropTextSpaced(v, f.key, OpOf(f.op), |conds|);
    match f.op
    case Eq => text := prop + " = $" + param;
    case Ne => text := prop + " <> $" + param;
    case Gt => text := prop + " > $" + param;
    case Ge => text := prop + " >= $" + param;
    case Lt => text := prop + " < $" + param;
    case Le => text := prop + " <= $" + param;
    case Contains => text := prop + " CONTAINS $" + param;
  }

  function Spaced(op: CypherOp): string
  {
    match op
    case OpEq => " = $"
    case OpNe => " <> $"
    case OpGt => " > $"
    case OpGe => " >= $"
    case OpLt => " < $"
    case OpLe => " <= $"
    case OpContains => " CONTAINS $"
  }

  lemma PropTextSpaced(v: nat, key: string, op: CypherOp, i: nat)
    ensures ShowPred(PropPred(v, key, op, i)) == ShowVar(v) + "." + ShowName(key) + Spaced(op) + ParamName(i)
  {
    var prop := ShowVar(v) + "." + ShowName(key);
    Assoc4(prop, " ", OpText(op), " $");
    assert " " + (OpText(op) + " $") == Spaced(op);
  }

  lemma PredsSnoc(conds: seq<Cond>, c: Cond)
    ensures ShowPreds(PredsOf(conds + [c])) == ShowPreds(PredsOf(conds)) + [ShowPred(PredOf(c, |conds|))]
  {
    var all := conds + [c];
    assert all[..|all| - 1] == conds && all[|all| - 1] == c;
    assert PredsOf(all) == PredsOf(conds) + [PredOf(c, |conds|)];
    ShowPredsSnoc(PredsOf(conds), PredOf(c, |conds|));
  }

  lemma ShowPredsSnoc(preds: seq<Pred>, p: Pred)
    ensures ShowPreds(preds + [p]) == ShowPreds(preds) + [ShowPred(p)]
  {
  }

  /** Appends the predicates of `filters` on variable `v`. */
  method ExtendPredicates(v: nat, filters: seq<PropertyFilter>, t: Translator,
                          texts: seq<string>, ghost conds: seq<Cond>)
    returns (r: seq<string>)
    requires t.Allocated(conds) && texts == ShowPreds(PredsOf(conds))
    modifies t
    ensures t.Allocated(conds + FilterConds(v, filters))
    ensures r == ShowPreds(PredsOf(conds + FilterConds(v, filters)))
  {
    hide ShowPred, ParamsOf, PredsOf, ShowPreds;
    r := texts;
    ghost var done := conds;
    assert conds + FilterConds(v, filters[..0]) == conds;
    for i := 0 to |filters|
      invariant done == conds + FilterConds(v, filters[..i])
      invariant t.Allocated(done) && r == ShowPreds(PredsOf(done))
    {
      var text := PropertyPredicate(v, filters[i], t, done);
      PredsSnoc(done, PropCond(v, filters[i]));
      r := r + [text];
      done := done + [PropCond(v, filters[i])];
      assert FilterConds(v, filters[..i + 1]) == FilterConds(v, filters[..i]) + [PropCond(v, filters[i])];
    }
    assert filters[..|filters|] == filters;
  }

  /** Appends the predicates of one node match: its id, then its filters. */
  method NodePredicates(node: NodeMatch, t: Translator, texts: seq<string>, ghost conds: seq<Cond>)
    returns (r: seq<string>)
    requires t.Allocated(conds) && texts == ShowPreds(PredsOf(conds))
    modifies t
    ensures t.Allocated(conds + NodeConds(node))
    ensures r == ShowPreds(PredsOf(conds + NodeConds(node)))
  {
    r := texts;
    ghost var done := conds;
    if node.idFilter.Some? {
      ghost var cond := IdCond(node.v, node.idFilter.value);
      var param := t.PushParam(Int(node.idFilter.value), conds, cond);
      PredsSnoc(conds, cond);
      r := r + ["id(" + ShowVar(node.v) + ") = $" + param];
      done := conds + [cond];
    }
    r := ExtendPredicates(node.v, node.filters, t, r, done);
    assert done + FilterConds(node.v, node.filters) == conds + NodeConds(node);
  }

  lemma CondsAtSnoc(nm: map<nat, NodeMatch>, order: seq<nat>, i: nat)
    requires forall v :: v in order ==> v in nm
    requires i < |order|
    ensures CondsAt(nm, order[..i + 1]) == CondsAt(nm, order[..i]) + NodeConds(nm[order[i]])
  {
    assert order[..i + 1][..i] == order[..i];
  }

  method BuildPredicates(q: GraphQuery, nm: map<nat, NodeMatch>, t: Translator) returns (predicates: seq<string>)
    requires Valid(q) && nm == NodeMatches(q.matches) && t.Allocated([])
    modifies t
    ensures t.Allocated(CondsOf(q))
    ensures predicates == ShowPreds(PredsOf(CondsOf(q)))
  {
    predicates := [];
    var order := Ascending(nm.Keys);
    ghost var conds: seq<Cond> := [];
    for i := 0 to |order|
      invariant conds == CondsAt(nm, order[..i])
      invariant t.Allocated(conds) && predicates == ShowPreds(PredsOf(conds))
    {
      var node := nm[order[i]];
      predicates := NodePredicates(node, t, predicates, conds);
      CondsAtSnoc(nm, order, i);
      conds := conds + NodeConds(node);
    }
    assert order[..|order|] == order;
    predicates := ExtendPredicates(RootVar(q), q.wheres, t, predicates, conds);
  }

  lemma {:induction false} NodeMatchesKeys(ms: seq<MatchClause>, v: nat)
    requires v in NodeMatches(ms)
    ensures NodeMatches(ms)[v].v == v && Node(NodeMatches(ms)[v]) in ms
  {
    var m := ms[|ms| - 1];
    if m.Hop? || m.node.v != v {
      NodeMatchesKeys(ms[..|ms| - 1], v);
    }
  }

  lemma {:induction false} StepsSnoc(nm: map<nat, NodeMatch>, ms: seq<MatchClause>, m: MatchClause)
    ensures StepsOf(nm, ms + [m]) == StepsOf(nm, ms) + StepsOf(nm, [m])
  {
    if ms == [] {
      assert ms + [m] == [m];
    } else {
      assert (ms + [m])[1..] == ms[1..] + [m];
      StepsSnoc(nm, ms[1..], m);
      hide StepOf;
      if ms[0].Hop? {
        var rest, last := StepsOf(nm, ms[1..]), StepsOf(nm, [m]);
        assert [StepOf(nm, ms[0].hop)] + (rest + last) == [StepOf(nm, ms[0].hop)] + rest + last;
      }
    }
  }

  lemma {:induction false} ShowStepsSnoc(steps: seq<Step>, s: Step)
    ensures ShowSteps(steps + [s]) == ShowSteps(steps) + ShowRel(s.rel) + ShowNode(s.node)
  {
    if steps == [] {
      assert steps + [s] == [s];
      assert ShowSteps([s]) == ShowRel(s.rel) + ShowNode(s.node) + ShowSteps([]);
    } else {
      assert (steps + [s])[1..] == steps[1..] + [s];
      ShowStepsSnoc(steps[1..], s);
      Assoc4(ShowRel(steps[0].rel) + ShowNode(steps[0].node), ShowSteps(steps[1..]), ShowRel(s.rel), ShowNode(s.node));
      Assoc3(ShowSteps(steps[1..]), ShowRel(s.rel), ShowNode(s.node));
    }
  }

  lemma PatternSnoc(head: string, steps: seq<Step>, step: Step)
    ensures head + ShowSteps(steps + [step]) == head + ShowSteps(steps) + ShowRel(step.rel) + ShowNode(step.node)
  {
    ShowStepsSnoc(steps, step);
    Assoc4(head, ShowSteps(steps), ShowRel(step.rel), ShowNode(step.node));
    Assoc3(ShowSteps(steps), ShowRel(step.rel), ShowNode(step.node));
  }

  lemma StepsExtend(nm: map<nat, NodeMatch>, ms: seq<MatchClause>, i: nat)
    requires 1 <= i < |ms|
    ensures StepsOf(nm, ms[1..i + 1])
            == StepsOf(nm, ms[1..i]) + (if ms[i].Hop? then [StepOf(nm, ms[i].hop)] else [])
  {
    assert ms[1..i + 1] == ms[1..i] + [ms[i]];
    StepsSnoc(nm, ms[1..i], ms[i]);
    assert [ms[i]][1..] == [];
  }

  lemma NoSteps(nm: map<nat, NodeMatch>)
    ensures StepsOf(nm, []) == [] && ShowSteps([]) == ""
  {
  }

  lemma NextClause(head: string, nm: map<nat, NodeMatch>, ms: seq<MatchClause>, i: nat)
    requires 1 <= i < |ms|
    ensures var before := head + ShowSteps(StepsOf(nm, ms[1..i]));
            head + ShowSteps(StepsOf(nm, ms[1..i + 1]))
            == if ms[i].Node? then before
               else before + ShowRel(StepOf(nm, ms[i].hop).rel) + ShowNode(StepOf(nm, ms[i].hop).node)
  {
    hide ShowSteps, ShowNode, ShowRel, StepsOf;
    StepsExtend(nm, ms, i);
    var steps := StepsOf(nm, ms[1..i]);
    if ms[i].Node? {
      assert steps + [] == steps;
    } else {
      PatternSnoc(head, steps, StepOf(nm, ms[i].hop));
    }
  }

  /** One hop of the chain; a node match of the end variable overrides the hop's own end labels. */
  method AppendHop(before: string, nm: map<nat, NodeMatch>, hop: HopMatch) returns (pattern: string)
    ensures pattern == before + ShowRel(StepOf(nm, hop).rel) + ShowNode(StepOf(nm, hop).node)
  {
    hide ShowRel, ShowNode;
    var endLabels := hop.endLabels;
    if hop.end in nm && nm[hop.end].labels != [] {
      endLabels := nm[hop.end].labels;
    }
    pattern := before + ShowRel(RelPat(hop.relVar, hop.relType, hop.dir));
    pattern := pattern + ShowNode(NodePat(hop.end, endLabels));
  }

  /** The chain pattern; anything but a leading node is an error. */
  method BuildMatchPattern(q: GraphQuery, nm: map<nat, NodeMatch>) returns (r: Result<string, QueryError>)
    requires nm == NodeMatches(q.matches)
    ensures r.Failure? <==> q.matches == [] || q.matches[0].Hop?
    ensures r.Failure? ==> r.error == MustStartWithNode
    ensures r.Success? ==>
              r.value == ShowNode(NodePat(q.matches[0].node.v, q.matches[0].node.labels))
                         + ShowSteps(StepsOf(nm, q.matches[1..]))
  {
    if q.matches == [] || q.matches[0].Hop? {
      return Failure(MustStartWithNode);
    }
    var root := q.matches[0].node;
    var pattern := ShowNode(NodePat(root.v, root.labels));
    ghost var head := pattern;
    hide ShowSteps, ShowNode, ShowRel, StepsOf, StepOf, NodeMatches;
    NoSteps(nm);
    assert q.matches[1..1] == [] && head + "" == head;
    for i := 1 to |q.matches|
      invariant pattern == head + ShowSteps(StepsOf(nm, q.matches[1..i]))
    {
      NextClause(head, nm, q.matches, i);
      match q.matches[i]
      case Node(_) =>
      case Hop(hop) =>
        pattern := AppendHop(pattern, nm, hop);
    }
    assert q.matches[1..|q.matches|] == q.matches[1..];
    return Success(pattern);
  }

  datatype CypherQuery = CypherQuery(text: string, params: map<string, Json>)

  /** The whole translation: the query's own error, or the printed statement with its parameters. */
  method GraphQueryToCypher(q: GraphQuery) returns (r: Result<CypherQuery, QueryError>)
    ensures r.Success? <==> Valid(q)
    ensures r == Failure(NoMatchClauses) <==> q.matches == []
    ensures r == Failure(MustStartWithNode) <==> q.matches != [] && q.matches[0].Hop?
    ensures forall v :: r == Failure(StartNotBound(v)) ==>
                          exists i :: 0 < i < |q.matches| && q.matches[i].Hop? && q.matches[i].hop.start == v
                                      && v !in BoundNodes(q.matches, i) && ValidUpTo(q.matches, i)
    ensures r.Success? ==> r.value == CypherQuery(Show(Translate(q)), ParamsOf(CondsOf(q)))
  {
    var error := Validate(q);
    if error.Some? {
      return Failure(error.value);
    }
    var translator := new Translator();
    var nm := NodeMatches(q.matches);
    var pattern := BuildMatchPattern(q, nm);
    var predicates := BuildPredicates(q, nm, translator);
    var returning := "RETURN " + Join(ShowVars(BoundVars(q)), ", ");
    var text := "MATCH " + pattern.value;
    if predicates != [] {
      text := text + " WHERE ";
      text := text + Join(predicates, " AND ");
    }
    text := text + " ";
    text := text + returning;
    if q.offset.Some? {
      text := text + (" SKIP " + Dec(q.offset.value));
    }
    if q.limit.Some? {
      text := text + (" LIMIT " + Dec(q.limit.value));
    }
    TextIsShow(Translate(q), pattern.value, text);
    return Success(CypherQuery(text, translator.params));
  }

  lemma TextIsShow(s: Statement, pattern: string, text: string)
    requires pattern == ShowNode(s.head) + ShowSteps(s.steps)
    requires var matched := "MATCH " + pattern;
             var filtered := if ShowPreds(s.preds) == [] then matched else matched + " WHERE " + Join(ShowPreds(s.preds), " AND ");
             var returning := filtered + " " + ("RETURN " + Join(ShowVars(s.columns), ", "));
             var skipped := if s.skip.Some? then returning + (" SKIP " + Dec(s.skip.value)) else returning;
             text == if s.limit.Some? then skipped + (" LIMIT " + Dec(s.limit.value)) else skipped
    ensures text == Show(s)
  {
    var matched := "MATCH " + pattern;
    Assoc3("MATCH ", ShowNode(s.head), ShowSteps(s.steps));
    var preds := if s.preds == [] then "" else " WHERE " + Join(ShowPreds(s.preds), " AND ");
    var filtered := matched + preds;
    assert s.preds == [] <==> ShowPreds(s.preds) == [];
    if s.preds == [] {
      assert matched + "" == matched;
    } else {
      Assoc3(matched, " WHERE ", Join(ShowPreds(s.preds), " AND "));
    }
    var vars := Join(ShowVars(s.columns), ", ");
    Assoc4(filtered, " ", "RETURN ", vars);
    Assoc3(filtered + " ", "RETURN ", vars);
    Assoc3(filtered, " RETURN ", vars);
    assert " " + "RETURN " == " RETURN ";
    Assoc3(" ", "RETURN ", vars);
    Assoc3(filtered, " ", "RETURN " + vars);
    var returning := filtered + " RETURN " + vars;
    var skipped := returning + ShowCount(" SKIP ", s.skip);
    if s.skip.None? {
      assert returning + "" == returning;
    }
    if s.limit.None? {
      assert skipped + "" == skipped;
    }
  }
}
