/**
 The translation theorem. For a linear query the emitted text parses back to a statement that
 a server accepts exactly when every hop's node match stands right after its hop, and whose
 results are exactly the results of the query. `ChainExact` shows that a chain of hops is not
 a convenience: it is exactly what the one-path pattern can express.
 */
module CypherTheorem {
  import opened Prelude
  import opened CypherSyntax
  import opened GraphQueries
  import opened CypherTranslate
  import opened CypherMeaning

  // ----------------------------------------------------------------- columns

  lemma IntroVarsSnoc(ms: seq<MatchClause>, n: nat)
    requires n < |ms|
    ensures IntroVars(ms[..n + 1]) == IntroVars(ms[..n]) + ClauseVars(ms[n])
  {
    assert ms[..n + 1][..n] == ms[..n];
  }

  lemma {:induction false} IntroVarsMember(ms: seq<MatchClause>, n: nat, v: nat)
    requires n <= |ms|
    ensures v in IntroVars(ms[..n]) <==> exists i :: 0 <= i < n && v in ClauseVars(ms[i])
  {
    if n > 0 {
      IntroVarsSnoc(ms, n - 1);
      IntroVarsMember(ms, n - 1, v);
    }
  }

  lemma DedupSnoc(s: seq<nat>, v: nat)
    ensures Dedup(s + [v]) == if s != [] && s[|s| - 1] == v then Dedup(s) else Dedup(s) + [v]
  {
    assert (s + [v])[..|s|] == s && (s + [v])[|s|] == v;
    if s != [] {
      assert Dedup(s)[|Dedup(s)| - 1] == s[|s| - 1];
    }
  }

  /** Among the first `n` clauses, a node match for a hop's end stands directly after the hop. */
  ghost predicate EndMatchesFollow(ms: seq<MatchClause>, n: nat)
    requires n <= |ms|
  {
    forall a, b :: 0 <= a < n && 0 <= b < n && ms[a].Node? && ms[b].Hop? && ms[a].node.v == ms[b].hop.end ==> a == b + 1
  }

  lemma NoDupAppend(out: seq<nat>, v: nat)
    ensures NoDup(out + [v]) <==> NoDup(out) && v !in out
  {
    if NoDup(out + [v]) {
      forall i, j | 0 <= i < j < |out|
        ensures out[i] != out[j]
      {
        assert (out + [v])[i] != (out + [v])[j];
      }
      forall i | 0 <= i < |out|
        ensures out[i] != v
      {
        assert (out + [v])[i] != (out + [v])[|out|];
      }
    }
  }

  lemma NoDupDedupSnoc(s: seq<nat>, v: nat)
    requires s != []
    ensures NoDup(Dedup(s + [v])) <==> NoDup(Dedup(s)) && (v in s ==> s[|s| - 1] == v)
  {
    DedupSnoc(s, v);
    NoDupAppend(Dedup(s), v);
  }

  ghost predicate HopEndBefore(ms: seq<MatchClause>, n: nat, v: nat)
    requires n <= |ms|
  {
    exists b :: 0 <= b < n && ms[b].Hop? && ms[b].hop.end == v
  }

  ghost predicate NodeBefore(ms: seq<MatchClause>, n: nat, v: nat)
    requires n <= |ms|
  {
    exists a :: 0 <= a < n && ms[a].Node? && ms[a].node.v == v
  }

  ghost predicate RelBefore(ms: seq<MatchClause>, n: nat, v: nat)
    requires n <= |ms|
  {
    exists b :: 0 <= b < n && ms[b].Hop? && ms[b].hop.relVar == v
  }

  lemma IntroducedBefore(ms: seq<MatchClause>, n: nat, v: nat)
    requires n <= |ms|
    ensures v in IntroVars(ms[..n]) <==> NodeBefore(ms, n, v) || HopEndBefore(ms, n, v) || RelBefore(ms, n, v)
  {
    hide IntroVars;
    IntroVarsMember(ms, n, v);
    if i :| 0 <= i < n && ms[i].Node? && ms[i].node.v == v {
      assert v in ClauseVars(ms[i]);
    }
    if i :| 0 <= i < n && ms[i].Hop? && (ms[i].hop.end == v || ms[i].hop.relVar == v) {
      assert v in ClauseVars(ms[i]);
    }
  }

  lemma LastIntroduced(ms: seq<MatchClause>, n: nat)
    requires 0 < n <= |ms|
    ensures var s := IntroVars(ms[..n]);
            s != [] && s[|s| - 1] == if ms[n - 1].Node? then ms[n - 1].node.v else ms[n - 1].hop.end
  {
    IntroVarsSnoc(ms, n - 1);
  }

  lemma ColumnsAfterNode(ms: seq<MatchClause>, n: nat)
    requires DistinctVars(ms) && 0 < n < |ms| && ms[n].Node?
    requires NoDup(Dedup(IntroVars(ms[..n]))) <==> EndMatchesFollow(ms, n)
    ensures NoDup(Dedup(IntroVars(ms[..n + 1]))) <==> EndMatchesFollow(ms, n + 1)
  {
    hide IntroVars, Dedup;
    var v := ms[n].node.v;
    IntroVarsSnoc(ms, n);
    assert ClauseVars(ms[n]) == [v];
    LastIntroduced(ms, n);
    NoDupDedupSnoc(IntroVars(ms[..n]), v);
    IntroducedBefore(ms, n, v);
    assert !NodeBefore(ms, n, v) && !RelBefore(ms, n, v);
    if b :| 0 <= b < n && ms[b].Hop? && ms[b].hop.end == v {
      assert forall i :: 0 <= i < n && ms[i].Hop? && ms[i].hop.end == v ==> i == b;
      assert EndMatchesFollow(ms, n + 1) ==> n == b + 1;
    }
  }

  lemma ColumnsAfterHop(ms: seq<MatchClause>, n: nat)
    requires DistinctVars(ms) && 0 < n < |ms| && ms[n].Hop?
    requires NoDup(Dedup(IntroVars(ms[..n]))) <==> EndMatchesFollow(ms, n)
    ensures NoDup(Dedup(IntroVars(ms[..n + 1]))) <==> EndMatchesFollow(ms, n + 1)
  {
    hide IntroVars, Dedup;
    var s, h := IntroVars(ms[..n]), ms[n].hop;
    IntroVarsSnoc(ms, n);
    assert s + [h.relVar] + [h.end] == s + ClauseVars(ms[n]);
    LastIntroduced(ms, n);
    IntroducedBefore(ms, n, h.relVar);
    IntroducedBefore(ms, n, h.end);
    assert !NodeBefore(ms, n, h.relVar) && !HopEndBefore(ms, n, h.relVar) && !RelBefore(ms, n, h.relVar);
    assert h.relVar != h.end && !HopEndBefore(ms, n, h.end) && !RelBefore(ms, n, h.end);
    NoDupDedupSnoc(s, h.relVar);
    NoDupDedupSnoc(s + [h.relVar], h.end);
    if a :| 0 <= a < n && ms[a].Node? && ms[a].node.v == h.end {
      assert a != n + 1;
    }
  }

  lemma ColumnsOfRoot(ms: seq<MatchClause>)
    requires ms != [] && ms[0].Node?
    ensures NoDup(Dedup(IntroVars(ms[..1]))) && EndMatchesFollow(ms, 1)
  {
    hide IntroVars, Dedup;
    IntroVarsSnoc(ms, 0);
    DedupOne(ms[0].node.v);
    assert IntroVars(ms[..0]) == [] by {
      NoVars(ms);
    }
    assert IntroVars(ms[..1]) == [ms[0].node.v];
  }

  lemma NoVars(ms: seq<MatchClause>)
    ensures IntroVars(ms[..0]) == []
  {
  }

  lemma DedupOne(v: nat)
    ensures Dedup([v]) == [v]
  {
    DedupSnoc([], v);
    assert [] + [v] == [v];
  }

  /** `bound_vars` removes consecutive repetitions only, so the columns are distinct just then. */
  lemma {:induction false} ColumnsDistinct(ms: seq<MatchClause>, n: nat)
    requires DistinctVars(ms) && 0 < n <= |ms| && ms[0].Node?
    ensures NoDup(Dedup(IntroVars(ms[..n]))) <==> EndMatchesFollow(ms, n)
  {
    hide DistinctVars, EndMatchesFollow, IntroVars, Dedup, NoDup;
    if n == 1 {
      ColumnsOfRoot(ms);
    } else {
      ColumnsDistinct(ms, n - 1);
      if ms[n - 1].Node? {
        ColumnsAfterNode(ms, n - 1);
      } else {
        ColumnsAfterHop(ms, n - 1);
      }
    }
  }

  // --------------------------------------------------------------- variables

  lemma {:induction false} StepsMembers(nm: map<nat, NodeMatch>, ms: seq<MatchClause>, s: Step)
    ensures s in StepsOf(nm, ms) <==> exists h: HopMatch :: Hop(h) in ms && s == StepOf(nm, h)
  {
    if ms != [] {
      assert ms == [ms[0]] + ms[1..];
      StepsMembers(nm, ms[1..], s);
      if ms[0].Hop? {
        assert Hop(ms[0].hop) in ms;
      }
      if h: HopMatch :| Hop(h) in ms && s == StepOf(nm, h) {
        assert Hop(h) == ms[0] || Hop(h) in ms[1..];
      }
    }
  }

  lemma StepVarsMembers(nm: map<nat, NodeMatch>, ms: seq<MatchClause>, v: nat)
    ensures v in RelVars(StepsOf(nm, ms)) <==> exists h: HopMatch :: Hop(h) in ms && h.relVar == v
    ensures (exists i :: 0 <= i < |StepsOf(nm, ms)| && StepsOf(nm, ms)[i].node.v == v)
            <==> exists h: HopMatch :: Hop(h) in ms && h.end == v
  {
    var steps := StepsOf(nm, ms);
    forall i | 0 <= i < |steps|
      ensures exists h: HopMatch :: Hop(h) in ms && steps[i] == StepOf(nm, h)
    {
      StepsMembers(nm, ms, steps[i]);
    }
    forall h: HopMatch | Hop(h) in ms
      ensures StepOf(nm, h) in steps
    {
      StepsMembers(nm, ms, StepOf(nm, h));
    }
    if h: HopMatch :| Hop(h) in ms && h.relVar == v {
      var i :| 0 <= i < |steps| && steps[i] == StepOf(nm, h);
    }
    if h: HopMatch :| Hop(h) in ms && h.end == v {
      var i :| 0 <= i < |steps| && steps[i] == StepOf(nm, h);
      assert steps[i].node.v == v;
    }
  }

  lemma {:induction false} StepsDistinct(nm: map<nat, NodeMatch>, ms: seq<MatchClause>)
    requires DistinctVars(ms) || forall i, j :: 0 <= i < j < |ms| && ms[i].Hop? && ms[j].Hop? ==> ms[i].hop.relVar != ms[j].hop.relVar
    ensures forall i, j :: 0 <= i < j < |StepsOf(nm, ms)| ==> StepsOf(nm, ms)[i].rel.v != StepsOf(nm, ms)[j].rel.v
  {
    if ms != [] {
      StepsDistinct(nm, ms[1..]);
      var steps, more := StepsOf(nm, ms), StepsOf(nm, ms[1..]);
      if ms[0].Hop? {
        assert steps == [StepOf(nm, ms[0].hop)] + more;
        forall j | 0 <= j < |more|
          ensures more[j].rel.v != ms[0].hop.relVar
        {
          StepsMembers(nm, ms[1..], more[j]);
          var h: HopMatch :| Hop(h) in ms[1..] && more[j] == StepOf(nm, h);
          var k :| 0 <= k < |ms[1..]| && ms[1..][k] == Hop(h);
          assert ms[k + 1].hop.relVar != ms[0].hop.relVar;
        }
      }
    }
  }

  lemma HopInTail(ms: seq<MatchClause>, h: HopMatch)
    requires ms != [] && ms[0].Node?
    ensures Hop(h) in ms <==> Hop(h) in ms[1..]
  {
    assert ms == [ms[0]] + ms[1..];
  }

  lemma RelVarsOfPattern(q: GraphQuery, v: nat)
    requires Valid(q)
    ensures v in RelVars(Translate(q).steps) <==> RelBefore(q.matches, |q.matches|, v)
  {
    hide IntroVars, Dedup, CondsOf;
    var ms := q.matches;
    StepVarsMembers(NodeMatches(ms), ms[1..], v);
    if h: HopMatch :| Hop(h) in ms[1..] && h.relVar == v {
      HopInTail(ms, h);
    }
    if i :| 0 <= i < |ms| && ms[i].Hop? && ms[i].hop.relVar == v {
      HopInTail(ms, ms[i].hop);
    }
  }

  lemma NodeVarsOfPattern(q: GraphQuery, v: nat)
    requires Valid(q)
    ensures v in NodeVars(Translate(q)) <==> v == RootVar(q) || HopEndBefore(q.matches, |q.matches|, v)
  {
    hide IntroVars, Dedup, CondsOf;
    var ms := q.matches;
    StepVarsMembers(NodeMatches(ms), ms[1..], v);
    if h: HopMatch :| Hop(h) in ms[1..] && h.end == v {
      HopInTail(ms, h);
    }
    if i :| 0 <= i < |ms| && ms[i].Hop? && ms[i].hop.end == v {
      HopInTail(ms, ms[i].hop);
    }
  }

  /**
   The pattern binds only variables the query introduces, and all of them exactly when no node
   match stands alone: the translator has nowhere to put such a clause and drops it.
   */
  lemma PatternVarsExact(q: GraphQuery)
    requires Valid(q) && DistinctVars(q.matches)
    ensures forall v :: v in PatternVars(Translate(q)) ==> v in IntroVars(q.matches)
    ensures (forall v :: v in IntroVars(q.matches) ==> v in PatternVars(Translate(q))) <==> Attached(q.matches)
    ensures NodeVars(Translate(q)) !! RelVars(Translate(q).steps)
  {
    hide IntroVars, Dedup, CondsOf, Translate, RelVars, NodeVars;
    var ms, s := q.matches, Translate(q);
    assert ms[..|ms|] == ms;
    forall v: nat
      ensures v in NodeVars(s) + RelVars(s.steps) ==> v in IntroVars(ms)
      ensures v in IntroVars(ms) && (NodeBefore(ms, |ms|, v) ==> v == RootVar(q) || HopEndBefore(ms, |ms|, v)) ==> v in NodeVars(s) + RelVars(s.steps)
      ensures !(v in NodeVars(s) && v in RelVars(s.steps))
    {
      RelVarsOfPattern(q, v);
      NodeVarsOfPattern(q, v);
      IntroducedBefore(ms, |ms|, v);
    }
    if !Attached(ms) {
      var i :| 0 < i < |ms| && ms[i].Node? && forall j :: 0 <= j < |ms| && ms[j].Hop? ==> ms[j].hop.end != ms[i].node.v;
      DetachedLeftOut(q, i);
    }
  }

  lemma DetachedLeftOut(q: GraphQuery, i: nat)
    requires Valid(q) && DistinctVars(q.matches) && 0 < i < |q.matches| && q.matches[i].Node?
    requires forall j :: 0 <= j < |q.matches| && q.matches[j].Hop? ==> q.matches[j].hop.end != q.matches[i].node.v
    ensures q.matches[i].node.v in IntroVars(q.matches) && q.matches[i].node.v !in PatternVars(Translate(q))
  {
    hide IntroVars, Translate;
    var ms, v := q.matches, q.matches[i].node.v;
    assert ms[..|ms|] == ms;
    IntroducedBefore(ms, |ms|, v);
    RelVarsOfPattern(q, v);
    NodeVarsOfPattern(q, v);
  }

  lemma ConditionVarsBound(q: GraphQuery, cond: Cond)
    requires Valid(q) && DistinctVars(q.matches) && cond in CondsOf(q)
    ensures cond.v in IntroVars(q.matches)
  {
    hide IntroVars, CondsOf, FilterConds, NodeConds;
    var ms := q.matches;
    assert ms[..|ms|] == ms;
    CondsOfMembers(q, cond);
    IntroducedBefore(ms, |ms|, cond.v);
    FilterCondsMembers(RootVar(q), q.wheres, cond);
    if n: NodeMatch :| Node(n) in ms && cond in NodeConds(n) {
      NodeCondsVar(n, cond);
    }
  }

  lemma PredsBound(q: GraphQuery, p: Pred)
    requires Valid(q) && DistinctVars(q.matches) && p in PredsOf(CondsOf(q))
    ensures p.v in IntroVars(q.matches) && ParamName(p.param) in ParamsOf(CondsOf(q))
  {
    hide Dec, IntroVars;
    var conds := CondsOf(q);
    ParamsExact(conds);
    var i :| 0 <= i < |conds| && PredsOf(conds)[i] == p;
    ConditionVarsBound(q, conds[i]);
  }

  /**
   A server accepts the emitted statement exactly when no node match stands alone and each end's
   node match follows its hop.
   */
  lemma ExecutableExactly(q: GraphQuery)
    requires Valid(q) && DistinctVars(q.matches)
    ensures Executable(Translate(q), ParamsOf(CondsOf(q))) <==> Attached(q.matches) && EndMatchesFollow(q.matches, |q.matches|)
  {
    hide Dec, IntroVars, Dedup, CondsOf, ParamsOf, PredsOf, PatternVars, RelVars, NodeVars, EndMatchesFollow, ParamName, Attached;
    assert q.matches[..|q.matches|] == q.matches;
    PatternVarsExact(q);
    ColumnsDistinct(q.matches, |q.matches|);
    StepsDistinct(NodeMatches(q.matches), q.matches[1..]);
    forall p | p in PredsOf(CondsOf(q))
      ensures p.v in IntroVars(q.matches) && ParamName(p.param) in ParamsOf(CondsOf(q))
    {
      PredsBound(q, p);
    }
  }

  // --------------------------------------------------------------------- rows

  lemma DistinctRelsAgree(q: GraphQuery, row: Row)
    requires Valid(q) && DistinctVars(q.matches)
    ensures DistinctRels(q, row) <==> DistinctRelsIn(Translate(q).steps, row)
  {
    hide Translate, RelVars;
    var ms, rels := q.matches, RelVars(Translate(q).steps);
    forall v: nat
      ensures v in rels <==> RelBefore(ms, |ms|, v)
    {
      RelVarsOfPattern(q, v);
    }
    if DistinctRelsIn(Translate(q).steps, row) {
      forall i, j | 0 <= i < j < |ms| && ms[i].Hop? && ms[j].Hop? && ms[i].hop.relVar in row && ms[j].hop.relVar in row
        ensures row[ms[i].hop.relVar] != row[ms[j].hop.relVar]
      {
        assert RelBefore(ms, |ms|, ms[i].hop.relVar) && RelBefore(ms, |ms|, ms[j].hop.relVar);
      }
    }
    if DistinctRels(q, row) {
      forall u, v | u in rels && v in rels && u != v && u in row && v in row
        ensures row[u] != row[v]
      {
        assert RelBefore(ms, |ms|, u) && RelBefore(ms, |ms|, v);
        var i :| 0 <= i < |ms| && ms[i].Hop? && ms[i].hop.relVar == u;
        var j :| 0 <= j < |ms| && ms[j].Hop? && ms[j].hop.relVar == v;
      }
    }
  }

  lemma PatternIsSteps(q: GraphQuery, g: Graph, row: Row)
    requires Valid(q) && Chain(RootVar(q), q.matches[1..])
    ensures var s := Translate(q);
            PatternHolds(q, g, row) <==> HasLabels(g, row, s.head.v, s.head.labels) && StepsHold(g, row, s.head.v, s.steps)
  {
    hide StepsHold, HopHolds, HasLabels, CondsOf, StepsOf, NodeMatches;
    var ms, nm := q.matches, NodeMatches(q.matches);
    StepsMeanHops(nm, g, row, RootVar(q), ms[1..]);
    assert ms == [ms[0]] + ms[1..];
    assert forall m :: m in ms && m.Hop? <==> m in ms[1..] && m.Hop?;
  }

  lemma FiltersArePreds(q: GraphQuery, g: Graph, c: Comparison, row: Row)
    requires Valid(q) && Linear(q) && ComparesIds(c) && PatternHolds(q, g, row)
    ensures forall n: NodeMatch :: Node(n) in q.matches ==> IsNode(g, row, n.v)
    ensures IsNode(g, row, RootVar(q))
    ensures (forall p :: p in PredsOf(CondsOf(q)) ==> PredHolds(g, c, ParamsOf(CondsOf(q)), row, p))
            <==> (forall n: NodeMatch :: Node(n) in q.matches ==> NodeConditions(g, c, row, n))
                 && forall f :: f in q.wheres ==> FilterHolds(c, g.nodes[row[RootVar(q)].id].props, f)
  {
    hide Linear, PatternHolds, CondsOf, ParamsOf, PredsOf, CondHolds, PredHolds, FilterHolds;
    forall n: NodeMatch | Node(n) in q.matches
      ensures IsNode(g, row, n.v)
    {
      PatternGivesLabels(q, g, row, n);
    }
    assert Node(q.matches[0].node) in q.matches;
    LinearDistinct(q);
    CondsMeanFilters(q, g, c, row);
    PredsMeanConds(g, c, row, CondsOf(q));
  }

  lemma LinearDistinct(q: GraphQuery)
    requires Valid(q) && Linear(q)
    ensures Chain(RootVar(q), q.matches[1..]) && DistinctVars(q.matches)
  {
  }

  lemma LinearAttached(q: GraphQuery)
    requires Valid(q) && Linear(q)
    ensures Attached(q.matches)
  {
  }

  /** A row answers the query exactly when it is a match of the statement. */
  lemma SameRows(q: GraphQuery, g: Graph, c: Comparison, isomorphic: bool, row: Row)
    requires Valid(q) && Linear(q) && ComparesIds(c)
    ensures IsAnswer(q, g, c, isomorphic, row) <==> Matches(Translate(q), ParamsOf(CondsOf(q)), g, c, isomorphic, row)
  {
    hide Linear, PatternHolds, CondsOf, ParamsOf, PredsOf, PredHolds, FilterHolds, ClauseHolds, StepsHold, HasLabels,
         NodeConditions, DistinctRels, DistinctRelsIn, PatternVars, IntroVars, Dedup, NodeMatches, StepsOf;
    LinearDistinct(q);
    PatternVarsExact(q);
    assert Attached(q.matches) by {
      LinearAttached(q);
    }
    DistinctRelsAgree(q, row);
    ClausesArePattern(q, g, c, row);
    PatternIsSteps(q, g, row);
    if PatternHolds(q, g, row) {
      FiltersArePreds(q, g, c, row);
    }
  }

  /** RETURN lists every variable of the pattern, so projecting loses nothing. */
  lemma ProjectionKeepsRows(rows: seq<Row>, columns: seq<nat>)
    requires forall row :: row in rows ==> row.Keys == set v | v in columns
    ensures Project(rows, columns) == rows
  {
    forall i | 0 <= i < |rows|
      ensures Project(rows, columns)[i] == rows[i]
    {
      assert rows[i] in rows;
    }
  }

  /** src/dsl/paging.rs is SKIP followed by LIMIT. */
  lemma PagingIsSkipLimit<T>(items: seq<T>, offset: Option<nat>, limit: Option<nat>)
    ensures ApplyPaging(items, offset, limit) == Limit(Skip(items, offset), limit)
  {
  }

  lemma PagesAgree(q: GraphQuery, g: Graph, c: Comparison, isomorphic: bool, all: seq<Row>)
    requires Valid(q) && Linear(q)
    requires forall row :: row in all ==> IsAnswer(q, g, c, isomorphic, row)
    ensures ApplyPaging(all, q.offset, q.limit)
            == Limit(Skip(Project(all, Translate(q).columns), Translate(q).skip), Translate(q).limit)
  {
    hide ApplyPaging, Skip, Limit, Project, CondsOf, IntroVars;
    ProjectionKeepsRows(all, BoundVars(q));
    PagingIsSkipLimit(all, q.offset, q.limit);
  }

  /**
   The translation theorem: the text of a linear query parses back to its statement, the
   statement is acceptable exactly when end matches follow their hops, and its results are
   the query's, over every graph, comparison and relationship-uniqueness rule.
   */
  lemma TranslationFaithful(q: GraphQuery, g: Graph, c: Comparison, isomorphic: bool, rows: seq<Row>)
    requires Valid(q) && Linear(q) && ComparesIds(c)
    ensures Parse(Show(Translate(q))) == Some(Translate(q))
    ensures Executable(Translate(q), ParamsOf(CondsOf(q))) <==> EndMatchesFollow(q.matches, |q.matches|)
    ensures Results(Translate(q), ParamsOf(CondsOf(q)), g, c, isomorphic, rows) <==> Answers(q, g, c, isomorphic, rows)
  {
    BoundVarsNonEmpty(q);
    ParseShow(Translate(q));
    ExecutableExactly(q);
    ResultsAgree(q, g, c, isomorphic, rows);
  }

  lemma ResultsAgree(q: GraphQuery, g: Graph, c: Comparison, isomorphic: bool, rows: seq<Row>)
    requires Valid(q) && Linear(q) && ComparesIds(c)
    ensures Results(Translate(q), ParamsOf(CondsOf(q)), g, c, isomorphic, rows) <==> Answers(q, g, c, isomorphic, rows)
  {
    hide Translate, ParamsOf, CondsOf, IsAnswer, Matches, ApplyPaging, Skip, Limit, Project, Linear, Valid;
    var s, params := Translate(q), ParamsOf(CondsOf(q));
    forall row
      ensures IsAnswer(q, g, c, isomorphic, row) <==> Matches(s, params, g, c, isomorphic, row)
    {
      SameRows(q, g, c, isomorphic, row);
    }
    if Answers(q, g, c, isomorphic, rows) {
      var all: seq<Row> :| Enumerates(all, row => IsAnswer(q, g, c, isomorphic, row)) && rows == ApplyPaging(all, q.offset, q.limit);
      PagesAgree(q, g, c, isomorphic, all);
      assert Enumerates(all, row => Matches(s, params, g, c, isomorphic, row));
    }
    if Results(s, params, g, c, isomorphic, rows) {
      var all: seq<Row> :| Enumerates(all, row => Matches(s, params, g, c, isomorphic, row))
                           && rows == Limit(Skip(Project(all, s.columns), s.skip), s.limit);
      assert Enumerates(all, row => IsAnswer(q, g, c, isomorphic, row));
      PagesAgree(q, g, c, isomorphic, all);
    }
  }

  lemma BoundVarsNonEmpty(q: GraphQuery)
    requires q.matches != []
    ensures BoundVars(q) != []
  {
    assert IntroVars(q.matches) != [];
  }

  // ----------------------------------------------------- what a path can say

  /** On this graph and row the emitted path says what the hops say. */
  ghost predicate PathMeansHops(q: GraphQuery, g: Graph, row: Row)
    requires Valid(q)
  {
    StepsHold(g, row, RootVar(q), StepsOf(NodeMatches(q.matches), q.matches[1..]))
    <==> forall m :: m in q.matches[1..] && m.Hop? ==> HopHolds(NodeMatches(q.matches), g, row, m.hop)
  }

  function Labels(ms: seq<MatchClause>): set<string>
  {
    set i, j | 0 <= i < |ms| && 0 <= j < |ClauseLabels(ms[i])| :: ClauseLabels(ms[i])[j]
  }

  function ClauseLabels(m: MatchClause): seq<string>
  {
    if m.Node? then m.node.labels else m.hop.endLabels
  }

  function FreeRel(h: HopMatch): RelRec
  {
    var ty := if h.relType.Some? then h.relType.value else "";
    if h.dir.In? then RelRec(ty, h.end, h.start, map[]) else RelRec(ty, h.start, h.end, map[])
  }

  function FreeRels(ms: seq<MatchClause>): map<int, RelRec>
  {
    if ms == [] then map[]
    else
      var m, rest := ms[|ms| - 1], FreeRels(ms[..|ms| - 1]);
      if m.Hop? then rest[m.hop.relVar := FreeRel(m.hop)] else rest
  }

  function FreeNodeIds(ms: seq<MatchClause>): set<int>
  {
    BoundNodes(ms, |ms|)
  }

  /** The graph with one node per node variable and one relationship per hop, and nothing else. */
  function FreeGraph(ms: seq<MatchClause>): Graph
  {
    Graph(map v | v in FreeNodeIds(ms) :: NodeRec(Labels(ms), map[]), FreeRels(ms))
  }

  function FreeRow(ms: seq<MatchClause>): Row
  {
    (map v | v in BoundNodes(ms, |ms|) :: NodeEntity(v))
    + (map v | v in (set i | 0 <= i < |ms| && ms[i].Hop? :: ms[i].hop.relVar) :: RelEntity(v))
  }

  lemma {:induction false} FreeRelsAt(ms: seq<MatchClause>, i: nat)
    requires DistinctVars(ms) && i < |ms| && ms[i].Hop?
    ensures ms[i].hop.relVar in FreeRels(ms) && FreeRels(ms)[ms[i].hop.relVar] == FreeRel(ms[i].hop)
  {
    if i < |ms| - 1 {
      FreeRelsAt(ms[..|ms| - 1], i);
    }
  }

  lemma {:induction false} BoundNodesMember(ms: seq<MatchClause>, n: nat, v: nat)
    requires n <= |ms|
    ensures v in BoundNodes(ms, n) <==> NodeBefore(ms, n, v) || HopEndBefore(ms, n, v)
  {
    if n > 0 {
      BoundNodesMember(ms, n - 1, v);
    }
  }

  lemma FreeEntities(ms: seq<MatchClause>, i: nat)
    requires DistinctVars(ms) && i < |ms| && ms[i].Hop?
    ensures IsRel(FreeGraph(ms), FreeRow(ms), ms[i].hop.relVar)
    ensures FreeRow(ms)[ms[i].hop.relVar] == RelEntity(ms[i].hop.relVar)
    ensures FreeGraph(ms).rels[ms[i].hop.relVar] == FreeRel(ms[i].hop)
  {
    hide BoundNodes, FreeRels;
    FreeRelsAt(ms, i);
  }

  lemma FreeNodes(ms: seq<MatchClause>, v: nat)
    requires DistinctVars(ms)
    ensures IsNode(FreeGraph(ms), FreeRow(ms), v) ==> FreeRow(ms)[v] == NodeEntity(v)
    ensures v in BoundNodes(ms, |ms|) ==> IsNode(FreeGraph(ms), FreeRow(ms), v)
    ensures IsNode(FreeGraph(ms), FreeRow(ms), v) ==> FreeGraph(ms).nodes[v] == NodeRec(Labels(ms), map[])
  {
    hide BoundNodes, FreeRels;
    BoundNodesMember(ms, |ms|, v);
    assert v in BoundNodes(ms, |ms|) ==> !RelBefore(ms, |ms|, v);
  }

  lemma EndLabelsKnown(ms: seq<MatchClause>, h: HopMatch, l: string)
    requires Hop(h) in ms && l in EndLabels(NodeMatches(ms), h)
    ensures l in Labels(ms)
  {
    hide NodeMatches;
    var nm := NodeMatches(ms);
    if h.end in nm && nm[h.end].labels != [] {
      NodeMatchesKeys(ms, h.end);
      var i :| 0 <= i < |ms| && ms[i] == Node(nm[h.end]);
      assert l in ClauseLabels(ms[i]);
    } else {
      var i :| 0 <= i < |ms| && ms[i] == Hop(h);
      assert l in ClauseLabels(ms[i]);
    }
  }

  /** Every hop holds on the free graph. */
  lemma FreeHopsHold(q: GraphQuery, i: nat)
    requires Valid(q) && DistinctVars(q.matches) && i < |q.matches| && q.matches[i].Hop?
    ensures HopHolds(NodeMatches(q.matches), FreeGraph(q.matches), FreeRow(q.matches), q.matches[i].hop)
  {
    hide NodeMatches, EndLabels, BoundNodes, FreeGraph, FreeRow, Labels;
    var ms, h := q.matches, q.matches[i].hop;
    FreeEntities(ms, i);
    BoundNodesMember(ms, i, h.start);
    BoundNodesMember(ms, |ms|, h.start);
    BoundNodesMember(ms, |ms|, h.end);
    FreeNodes(ms, h.start);
    FreeNodes(ms, h.end);
    forall l | l in EndLabels(NodeMatches(ms), h)
      ensures l in Labels(ms)
    {
      EndLabelsKnown(ms, h, l);
    }
  }

  /** On the free graph a path holds only if every hop starts where the path stands. */
  lemma {:induction false} FreePathIsChain(ms: seq<MatchClause>, nm: map<nat, NodeMatch>, i: nat, prev: nat)
    requires DistinctVars(ms) && i <= |ms|
    requires StepsHold(FreeGraph(ms), FreeRow(ms), prev, StepsOf(nm, ms[i..]))
    ensures Chain(prev, ms[i..])
    decreases |ms| - i
  {
    hide FreeGraph, FreeRow, EndLabels;
    if i < |ms| {
      assert ms[i..][1..] == ms[i + 1..];
      if ms[i].Node? {
        assert StepsOf(nm, ms[i..]) == StepsOf(nm, ms[i + 1..]);
        FreePathIsChain(ms, nm, i + 1, prev);
      } else {
        var h := ms[i].hop;
        assert StepsOf(nm, ms[i..])[1..] == StepsOf(nm, ms[i + 1..]);
        FreeEntities(ms, i);
        FreeNodes(ms, prev);
        FreeNodes(ms, h.end);
        assert h.start == prev;
        FreePathIsChain(ms, nm, i + 1, h.end);
      }
    }
  }

  /** A row of the query that the path pattern misses. */
  ghost predicate Missed(q: GraphQuery, g: Graph, row: Row)
    requires Valid(q)
  {
    && (forall m :: m in q.matches[1..] && m.Hop? ==> HopHolds(NodeMatches(q.matches), g, row, m.hop))
    && !StepsHold(g, row, RootVar(q), StepsOf(NodeMatches(q.matches), q.matches[1..]))
  }

  /** A query that is no chain has a graph and a row on which its hops hold and the path does not. */
  lemma BranchMissed(q: GraphQuery)
    requires Valid(q) && DistinctVars(q.matches) && !Chain(RootVar(q), q.matches[1..])
    ensures exists g: Graph, row: Row :: Missed(q, g, row)
  {
    hide StepsHold, HopHolds, FreeGraph, FreeRow, StepsOf, NodeMatches;
    var ms, nm := q.matches, NodeMatches(q.matches);
    forall m | m in ms[1..] && m.Hop?
      ensures HopHolds(nm, FreeGraph(ms), FreeRow(ms), m.hop)
    {
      var i :| 0 <= i < |ms[1..]| && ms[1..][i] == m;
      FreeHopsHold(q, i + 1);
    }
    if StepsHold(FreeGraph(ms), FreeRow(ms), RootVar(q), StepsOf(nm, ms[1..])) {
      FreePathIsChain(ms, nm, 1, RootVar(q));
    }
    assert Missed(q, FreeGraph(ms), FreeRow(ms));
  }

  /**
   The path pattern says what the hops say, on every graph and row, exactly when each hop
   starts at the end of the previous one: the translator never looks at where a hop starts.
   */
  lemma ChainExact(q: GraphQuery)
    requires Valid(q) && DistinctVars(q.matches)
    ensures Chain(RootVar(q), q.matches[1..]) <==> forall g: Graph, row: Row :: PathMeansHops(q, g, row)
  {
    hide StepsHold, HopHolds, StepsOf, NodeMatches;
    var ms, nm := q.matches, NodeMatches(q.matches);
    if Chain(RootVar(q), ms[1..]) {
      forall g: Graph, row: Row
        ensures PathMeansHops(q, g, row)
      {
        StepsMeanHops(nm, g, row, RootVar(q), ms[1..]);
      }
    }
    if !Chain(RootVar(q), ms[1..]) {
      BranchMissed(q);
      var g: Graph, row: Row :| Missed(q, g, row);
      assert !PathMeansHops(q, g, row);
    }
  }

  // ---------------------------------------------------------------- witnesses

  const ANY := NodeMatch(0, [], None, [])

  /** Two hops, and the first one's end matched only after the second. */
  const DISPLACED := GraphQuery(
    [Node(ANY), Hop(HopMatch(0, None, 1, Out, 2, [])), Hop(HopMatch(2, None, 3, Out, 4, [])), Node(ANY.(v := 2))],
    [], ReturnNode(4), None, None)

  /** A valid chain of hops whose statement a server rejects: it returns a column twice. */
  lemma DisplacedMatchRejected()
    ensures Valid(DISPLACED) && Linear(DISPLACED)
    ensures !Executable(Translate(DISPLACED), ParamsOf(CondsOf(DISPLACED)))
  {
    DisplacedIsLinear();
    hide Translate, Executable, ParamsOf, CondsOf, Valid, DistinctVars, EndMatchesFollow;
    ExecutableExactly(DISPLACED);
  }

  lemma DisplacedIsLinear()
    ensures Valid(DISPLACED) && Linear(DISPLACED) && DistinctVars(DISPLACED.matches)
    ensures !EndMatchesFollow(DISPLACED.matches, |DISPLACED.matches|)
  {
    hide IntroVars, Dedup, Chain;
    var ms := DISPLACED.matches;
    assert BoundNodes(ms, 0) == {};
    assert BoundNodes(ms, 1) == BoundNodes(ms, 0) + {0};
    assert BoundNodes(ms, 2) == BoundNodes(ms, 1) + {2};
    ChainSteps();
    assert ms[1].hop.end == ms[3].node.v;
  }

  /** A node match beside the root that no hop ends in. */
  const DETACHED := GraphQuery([Node(ANY), Node(ANY.(v := 1))], [], ReturnNode(1), None, None)

  /** A valid query whose statement a server rejects: it returns a variable that its pattern does not bind. */
  lemma DetachedMatchRejected()
    ensures Valid(DETACHED) && DistinctVars(DETACHED.matches) && Chain(RootVar(DETACHED), DETACHED.matches[1..])
    ensures EndMatchesFollow(DETACHED.matches, |DETACHED.matches|)
    ensures !Executable(Translate(DETACHED), ParamsOf(CondsOf(DETACHED)))
  {
    var ms := DETACHED.matches;
    assert ms[1..][1..] == [];
    assert ms[1].Node? && forall j :: 0 <= j < |ms| ==> ms[j].Node?;
    assert !Attached(ms);
    hide Translate, Executable, ParamsOf, CondsOf;
    ExecutableExactly(DETACHED);
  }

  lemma ChainSteps()
    ensures Chain(0, DISPLACED.matches[1..])
  {
    var rest := DISPLACED.matches[1..];
    assert rest[1..][1..][1..] == [];
    assert Chain(4, rest[1..][1..]);
    assert Chain(2, rest[1..]);
  }

  /** Two hops from one node. */
  const BRANCHING := GraphQuery(
    [Node(ANY), Hop(HopMatch(0, None, 1, Out, 2, [])), Hop(HopMatch(0, None, 3, Out, 4, []))],
    [], ReturnNode(4), None, None)

  /** A valid query with a branch: on some graph its hops hold and the translated path does not. */
  lemma BranchMistranslated()
    ensures Valid(BRANCHING) && DistinctVars(BRANCHING.matches)
    ensures exists g: Graph, row: Row :: Missed(BRANCHING, g, row)
  {
    BranchingIsValid();
    hide Valid, DistinctVars, Missed, Chain;
    BranchMissed(BRANCHING);
  }

  lemma BranchingIsValid()
    ensures Valid(BRANCHING) && DistinctVars(BRANCHING.matches) && !Chain(RootVar(BRANCHING), BRANCHING.matches[1..])
  {
    var ms := BRANCHING.matches;
    assert 0 in BoundNodes(ms, 1);
    assert BoundNodes(ms, 2) == BoundNodes(ms, 1) + {2};
    assert ms[1..][1..][0] == ms[2];
  }
}
