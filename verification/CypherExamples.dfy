/** The statements that tests/cypher_translation.rs expects, from the queries it gives. */
module CypherExamples {
  import opened Prelude
  import opened CypherSyntax
  import opened GraphQueries
  import opened CypherTranslate

  // ------------------------------------------------------------------- spelling

  lemma {:induction false} PlainName(name: string)
    requires '`' !in name
    ensures ShowName(name) == "`" + name + "`"
  {
    if name != [] {
      PlainName(name[1..]);
      EscapeIs(name[1..]);
    }
  }

  lemma {:induction false} EscapeIs(name: string)
    requires '`' !in name
    ensures Escape(name) == name
  {
    if name != [] {
      EscapeIs(name[1..]);
    }
  }

  lemma Vars()
    ensures ShowVar(0) == "v0" && ShowVar(1) == "v1" && ShowVar(2) == "v2"
    ensures ParamName(0) == "p0" && ParamName(1) == "p1" && ParamName(2) == "p2"
    ensures Dec(3) == "3" && Dec(5) == "5" && Dec(10) == "10"
  {
    assert Dec(0) == "0" && Dec(1) == "1" && Dec(2) == "2";
  }

  lemma OneKey(x: nat)
    ensures Ascending({x}) == [x]
  {
    assert Least({x}) == x && {x} - {x} == {};
    assert Ascending({}) == [];
  }

  lemma OneLabel(v: nat, name: string)
    ensures ShowNode(NodePat(v, [name])) == "(" + ShowVar(v) + ":" + ShowName(name) + ")"
  {
    assert [name][1..] == [];
    assert ShowLabels([name]) == ":" + ShowName(name);
    assert "(" + ShowVar(v) + (":" + ShowName(name)) == "(" + ShowVar(v) + ":" + ShowName(name);
  }

  /** The parts of a printed statement put together. */
  lemma Assembled(s: Statement, head: string, steps: string, conditions: string, columns: string)
    requires ShowNode(s.head) == head && ShowSteps(s.steps) == steps && Join(ShowVars(s.columns), ", ") == columns
    requires (if s.preds == [] then "" else " WHERE " + Join(ShowPreds(s.preds), " AND ")) == conditions
    ensures Show(s) == "MATCH " + head + steps + conditions + " RETURN " + columns + ShowCount(" SKIP ", s.skip) + ShowCount(" LIMIT ", s.limit)
  {
  }

  // ----------------------------------------------- a root with filters and paging

  const USER_QUERY := GraphQuery(
    [Node(NodeMatch(0, ["User"], Some(42), [PropertyFilter("name", Eq, Str("Alice")), PropertyFilter("age", Ge, Int(21))]))],
    [], ReturnNode(0), Some(10), Some(5))

  const USER_CONDS := [
    IdCond(0, 42),
    PropCond(0, PropertyFilter("name", Eq, Str("Alice"))),
    PropCond(0, PropertyFilter("age", Ge, Int(21)))]

  lemma UserConds()
    ensures Valid(USER_QUERY) && CondsOf(USER_QUERY) == USER_CONDS
    ensures NodeMatches(USER_QUERY.matches) == map[0 := USER_QUERY.matches[0].node]
  {
    var ms := USER_QUERY.matches;
    assert ms[..0] == [];
    var nm := NodeMatches(ms);
    assert nm == map[0 := ms[0].node];
    OneKey(0);
    assert nm.Keys == {0};
    assert [0][..0] == [];
    assert CondsAt(nm, [0]) == NodeConds(ms[0].node);
  }

  lemma UserPreds()
    ensures ShowPreds(PredsOf(USER_CONDS)) == ["id(v0) = $p0", "v0.`name` = $p1", "v0.`age` >= $p2"]
  {
    var preds := PredsOf(USER_CONDS);
    assert preds[0] == IdPred(0, 0) && preds[1] == PropPred(0, "name", OpEq, 1) && preds[2] == PropPred(0, "age", OpGe, 2);
    IdText();
    NameText();
    AgeText();
    hide ShowPred, PredsOf;
    assert ShowPreds(preds)[0] == "id(v0) = $p0";
    assert ShowPreds(preds)[1] == "v0.`name` = $p1";
    assert ShowPreds(preds)[2] == "v0.`age` >= $p2";
  }

  lemma IdText()
    ensures ShowPred(IdPred(0, 0)) == "id(v0) = $p0"
  {
    Vars();
    hide Dec;
    assert "id(" + "v0" + ") = $" + "p0" == "id(v0) = $p0";
  }

  lemma NameText()
    ensures ShowPred(PropPred(0, "name", OpEq, 1)) == "v0.`name` = $p1"
  {
    Vars();
    PlainName("name");
    hide Dec, ShowName;
    assert "v0" + "." + ("`" + "name" + "`") + " " + "=" + " $" + "p1" == "v0.`name` = $p1";
  }

  lemma AgeText()
    ensures ShowPred(PropPred(0, "age", OpGe, 2)) == "v0.`age` >= $p2"
  {
    Vars();
    PlainName("age");
    hide Dec, ShowName;
    assert "v0" + "." + ("`" + "age" + "`") + " " + ">=" + " $" + "p2" == "v0.`age` >= $p2";
  }

  lemma JoinThree(a: string, b: string, c: string)
    ensures Join([a, b, c], " AND ") == a + " AND " + (b + " AND " + c)
  {
    assert [a, b, c][1..] == [b, c];
    JoinTwo(b, c);
  }

  lemma JoinTwo(a: string, b: string)
    ensures Join([a, b], " AND ") == a + " AND " + b
  {
    assert [a, b][1..] == [b];
    assert Join([b], " AND ") == b;
  }

  /** `translates_root_node_match_with_filters_and_paging`. */
  lemma UserText()
    ensures Valid(USER_QUERY)
    ensures Show(Translate(USER_QUERY))
            == "MATCH " + "(v0:`User`)" + "" + (" WHERE " + ("id(v0) = $p0" + " AND " + ("v0.`name` = $p1" + " AND " + "v0.`age` >= $p2")))
               + " RETURN " + "v0" + " SKIP 5" + " LIMIT 10"
    ensures ParamsOf(CondsOf(USER_QUERY)) == map["p0" := Int(42), "p1" := Str("Alice"), "p2" := Int(21)]
  {
    UserStatement();
    UserConds();
    UserParams();
    hide Show, Translate, Valid, CondsOf, ParamsOf;
    UserShown();
  }

  lemma UserStatement()
    ensures Valid(USER_QUERY) && Translate(USER_QUERY) == Statement(NodePat(0, ["User"]), [], PredsOf(USER_CONDS), [0], Some(5), Some(10))
  {
    UserConds();
    OneColumn(USER_QUERY.matches);
    NoSteps(NodeMatches(USER_QUERY.matches));
    assert USER_QUERY.matches[1..] == [];
    hide CondsOf, IntroVars, Dedup, NodeMatches, StepsOf, PredsOf;
  }

  lemma UserShown()
    ensures Show(Statement(NodePat(0, ["User"]), [], PredsOf(USER_CONDS), [0], Some(5), Some(10)))
            == "MATCH " + "(v0:`User`)" + "" + (" WHERE " + ("id(v0) = $p0" + " AND " + ("v0.`name` = $p1" + " AND " + "v0.`age` >= $p2")))
               + " RETURN " + "v0" + " SKIP 5" + " LIMIT 10"
  {
    UserPreds();
    NodeTexts();
    Counts();
    JoinThree("id(v0) = $p0", "v0.`name` = $p1", "v0.`age` >= $p2");
    ShowOneVar();
    NoSteps(map[]);
    hide ShowNode, ShowSteps, Dec, Join, ShowPreds, ShowVars, PredsOf, Show, ShowVar, ShowCount;
    var s := Statement(NodePat(0, ["User"]), [], PredsOf(USER_CONDS), [0], Some(5), Some(10));
    assert s.preds != [];
    Assembled(s, "(v0:`User`)", "", " WHERE " + ("id(v0) = $p0" + " AND " + ("v0.`name` = $p1" + " AND " + "v0.`age` >= $p2")), "v0");
  }

  lemma ShowOneVar()
    ensures Join(ShowVars([0]), ", ") == "v0"
  {
    Vars();
    hide Dec;
    assert ShowVars([0]) == ["v0"];
  }

  lemma Counts()
    ensures ShowCount(" SKIP ", Some(5)) == " SKIP 5" && ShowCount(" LIMIT ", Some(10)) == " LIMIT 10" && ShowCount(" LIMIT ", Some(3)) == " LIMIT 3"
    ensures ShowCount(" SKIP ", None) == "" && ShowCount(" LIMIT ", None) == ""
  {
    Vars();
    hide Dec;
    assert " SKIP " + "5" == " SKIP 5" && " LIMIT " + "10" == " LIMIT 10" && " LIMIT " + "3" == " LIMIT 3";
  }

  lemma OneColumn(ms: seq<MatchClause>)
    requires |ms| == 1 && ms[0].Node?
    ensures Dedup(IntroVars(ms)) == [ms[0].node.v]
  {
    var v := ms[0].node.v;
    assert ms[..0] == [];
    assert IntroVars([]) == [];
    assert IntroVars(ms) == [v];
    assert [v][..0] == [];
    assert Dedup([]) == [];
  }

  lemma UserParams()
    ensures ParamsOf(USER_CONDS) == map["p0" := Int(42), "p1" := Str("Alice"), "p2" := Int(21)]
  {
    Vars();
    hide Dec;
    var cs := USER_CONDS;
    assert cs[..2][..1] == cs[..1] && cs[..1][..0] == [] && cs[..2] == [cs[0], cs[1]];
    assert ParamsOf(cs[..1]) == map["p0" := Int(42)];
    assert ParamsOf(cs[..2]) == map["p0" := Int(42), "p1" := Str("Alice")];
  }

  // ------------------------------------------------------------ one hop outwards

  const AUTHORED_QUERY := GraphQuery(
    [Node(NodeMatch(0, ["User"], None, [PropertyFilter("name", Contains, Str("Ali"))])),
     Hop(HopMatch(0, Some("AUTHORED"), 1, Out, 2, ["Post"])),
     Node(NodeMatch(2, ["Post"], None, [PropertyFilter("title", Ne, Str("Draft"))]))],
    [], ReturnNode(2), None, None)

  const AUTHORED_CONDS := [
    PropCond(0, PropertyFilter("name", Contains, Str("Ali"))),
    PropCond(2, PropertyFilter("title", Ne, Str("Draft")))]

  lemma TwoKeys(x: nat, y: nat)
    requires x < y
    ensures Ascending({x, y}) == [x, y]
  {
    assert Least({x, y}) == x && {x, y} - {x} == {y};
    OneKey(y);
  }

  lemma HopMatches(ms: seq<MatchClause>)
    requires |ms| == 3 && ms[0].Node? && ms[1].Hop? && ms[2].Node? && ms[0].node.v == 0 && ms[2].node.v == 2
    ensures NodeMatches(ms) == map[0 := ms[0].node, 2 := ms[2].node]
  {
    assert ms[..2][..1] == ms[..1] && ms[..1][..0] == [];
    assert NodeMatches(ms[..1]) == map[0 := ms[0].node];
    assert NodeMatches(ms[..2]) == map[0 := ms[0].node];
  }

  lemma HopConds(q: GraphQuery)
    requires |q.matches| == 3 && q.matches[0].Node? && q.matches[1].Hop? && q.matches[2].Node?
    requires q.matches[0].node.v == 0 && q.matches[1].hop.start == 0 && q.matches[2].node.v == 2 && q.wheres == []
    ensures Valid(q) && CondsOf(q) == NodeConds(q.matches[0].node) + NodeConds(q.matches[2].node)
  {
    var ms := q.matches;
    assert BoundNodes(ms, 1) == BoundNodes(ms, 0) + {0};
    HopMatches(ms);
    TwoKeys(0, 2);
    TwoConds(map[0 := ms[0].node, 2 := ms[2].node]);
    hide NodeMatches, NodeConds, CondsAt, Ascending;
    assert map[0 := ms[0].node, 2 := ms[2].node].Keys == {0, 2};
    assert FilterConds(0, []) == [];
  }

  lemma TwoConds(nm: map<nat, NodeMatch>)
    requires 0 in nm && 2 in nm
    ensures CondsAt(nm, [0, 2]) == NodeConds(nm[0]) + NodeConds(nm[2])
  {
    hide NodeConds;
    assert [0, 2][..1] == [0] && [0][..0] == [];
    assert CondsAt(nm, []) == [];
    assert CondsAt(nm, [0]) == NodeConds(nm[0]);
  }

  lemma OneFilter(v: nat, labels: seq<string>, f: PropertyFilter)
    ensures NodeConds(NodeMatch(v, labels, None, [f])) == [PropCond(v, f)]
  {
  }

  lemma AuthoredConds()
    ensures Valid(AUTHORED_QUERY) && CondsOf(AUTHORED_QUERY) == AUTHORED_CONDS
  {
    HopConds(AUTHORED_QUERY);
    OneFilter(0, ["User"], PropertyFilter("name", Contains, Str("Ali")));
    OneFilter(2, ["Post"], PropertyFilter("title", Ne, Str("Draft")));
    hide CondsOf, NodeConds, Valid;
  }

  lemma AuthoredPreds()
    ensures ShowPreds(PredsOf(AUTHORED_CONDS)) == ["v0.`name` CONTAINS $p0", "v2.`title` <> $p1"]
  {
    var preds := PredsOf(AUTHORED_CONDS);
    assert preds[0] == PropPred(0, "name", OpContains, 0) && preds[1] == PropPred(2, "title", OpNe, 1);
    ContainsText();
    TitleText();
    hide ShowPred, PredsOf;
    assert ShowPreds(preds)[0] == "v0.`name` CONTAINS $p0";
    assert ShowPreds(preds)[1] == "v2.`title` <> $p1";
  }

  lemma ContainsText()
    ensures ShowPred(PropPred(0, "name", OpContains, 0)) == "v0.`name` CONTAINS $p0"
  {
    Vars();
    PlainName("name");
    hide Dec, ShowName;
    assert "v0" + "." + ("`" + "name" + "`") + " " + "CONTAINS" + " $" + "p0" == "v0.`name` CONTAINS $p0";
  }

  lemma TitleText()
    ensures ShowPred(PropPred(2, "title", OpNe, 1)) == "v2.`title` <> $p1"
  {
    Vars();
    PlainName("title");
    hide Dec, ShowName;
    assert "v2" + "." + ("`" + "title" + "`") + " " + "<>" + " $" + "p1" == "v2.`title` <> $p1";
  }

  lemma AuthoredRel()
    ensures ShowRel(RelPat(1, Some("AUTHORED"), Out)) == "-[v1:`AUTHORED`]->"
  {
    Vars();
    AuthoredType();
    hide Dec, ShowType;
    var ty := ShowType(Some("AUTHORED"));
    assert "-[" + "v1" + ty + "]->" == "-[v1:`AUTHORED`]->";
  }

  lemma AuthoredType()
    ensures ShowType(Some("AUTHORED")) == ":`AUTHORED`"
  {
    PlainName("AUTHORED");
    hide ShowName;
    assert ":" + ("`" + "AUTHORED" + "`") == ":`AUTHORED`";
  }

  lemma NodeTexts()
    ensures ShowNode(NodePat(0, ["User"])) == "(v0:`User`)" && ShowNode(NodePat(2, ["Post"])) == "(v2:`Post`)"
    ensures ShowNode(NodePat(0, ["Post"])) == "(v0:`Post`)" && ShowNode(NodePat(2, ["User"])) == "(v2:`User`)"
  {
    Vars();
    hide ShowNode, Dec;
    NodeText(0, "User");
    NodeText(2, "Post");
    NodeText(0, "Post");
    NodeText(2, "User");
  }

  lemma NodeText(v: nat, name: string)
    requires '`' !in name
    ensures ShowNode(NodePat(v, [name])) == "(" + ShowVar(v) + ":`" + name + "`)"
  {
    PlainName(name);
    OneLabel(v, name);
    hide ShowName, ShowVar, ShowNode;
    assert "(" + ShowVar(v) + ":" + ("`" + name + "`") + ")" == "(" + ShowVar(v) + ":`" + name + "`)";
  }

  lemma ThreeVars()
    ensures Join(ShowVars([0, 1, 2]), ", ") == "v0, v1, v2"
  {
    Vars();
    hide Dec;
    assert ShowVars([0, 1, 2]) == ["v0", "v1", "v2"];
    assert ["v0", "v1", "v2"][1..] == ["v1", "v2"] && ["v1", "v2"][1..] == ["v2"];
    assert Join(["v1", "v2"], ", ") == "v1" + ", " + "v2";
  }

  lemma HopColumns(ms: seq<MatchClause>)
    requires |ms| == 3 && ms[0].Node? && ms[1].Hop? && ms[2].Node?
    requires ms[0].node.v == 0 && ms[1].hop.relVar == 1 && ms[1].hop.end == 2 && ms[2].node.v == 2
    ensures Dedup(IntroVars(ms)) == [0, 1, 2]
  {
    assert ms[..2][..1] == ms[..1] && ms[..1][..0] == [];
    assert IntroVars(ms[..1]) == [0];
    assert IntroVars(ms[..2]) == [0, 1, 2];
    assert IntroVars(ms) == [0, 1, 2, 2];
    assert [0, 1, 2, 2][..3] == [0, 1, 2] && [0, 1, 2][..2] == [0, 1] && [0, 1][..1] == [0] && [0][..0] == [];
    assert Dedup([0]) == [0];
    assert Dedup([0, 1]) == [0, 1];
  }

  lemma AuthoredParams()
    ensures ParamsOf(AUTHORED_CONDS) == map["p0" := Str("Ali"), "p1" := Str("Draft")]
  {
    Vars();
    hide Dec;
    var cs := AUTHORED_CONDS;
    assert cs[..1][..0] == [];
    assert ParamsOf(cs[..1]) == map["p0" := Str("Ali")];
  }

  /** `translates_one_hop_outgoing_traversal_returning_end_node`. */
  lemma AuthoredText()
    ensures Valid(AUTHORED_QUERY)
    ensures Show(Translate(AUTHORED_QUERY))
            == "MATCH " + "(v0:`User`)" + ("-[v1:`AUTHORED`]->" + "(v2:`Post`)")
               + (" WHERE " + ("v0.`name` CONTAINS $p0" + " AND " + "v2.`title` <> $p1"))
               + " RETURN " + "v0, v1, v2" + "" + ""
    ensures ParamsOf(CondsOf(AUTHORED_QUERY)) == map["p0" := Str("Ali"), "p1" := Str("Draft")]
  {
    AuthoredConds();
    AuthoredPreds();
    AuthoredParams();
    AuthoredSteps();
    NodeTexts();
    ThreeVars();
    JoinTwo("v0.`name` CONTAINS $p0", "v2.`title` <> $p1");
    Counts();
    HopColumns(AUTHORED_QUERY.matches);
    hide ShowNode, ShowSteps, Dec, Join, ParamsOf, CondsOf, IntroVars, Dedup, NodeMatches, StepsOf, ShowPreds, ShowVars, PredsOf, Show, ShowCount;
    var s := Translate(AUTHORED_QUERY);
    assert s.preds == PredsOf(AUTHORED_CONDS) && |s.preds| == 2;
    Assembled(s, "(v0:`User`)", "-[v1:`AUTHORED`]->" + "(v2:`Post`)",
              " WHERE " + ("v0.`name` CONTAINS $p0" + " AND " + "v2.`title` <> $p1"), "v0, v1, v2");
  }

  lemma AuthoredSteps()
    ensures var ms := AUTHORED_QUERY.matches;
            ShowSteps(StepsOf(NodeMatches(ms), ms[1..])) == "-[v1:`AUTHORED`]->" + "(v2:`Post`)"
  {
    AuthoredRel();
    NodeTexts();
    var ms := AUTHORED_QUERY.matches;
    HopMatches(ms);
    OneHopSteps(NodeMatches(ms), ms);
    hide ShowNode, ShowRel, NodeMatches, StepsOf, ShowSteps;
    OneStep(StepOf(NodeMatches(ms), ms[1].hop));
  }

  lemma OneHopSteps(nm: map<nat, NodeMatch>, ms: seq<MatchClause>)
    requires |ms| == 3 && ms[1].Hop? && ms[2].Node?
    ensures StepsOf(nm, ms[1..]) == [StepOf(nm, ms[1].hop)]
  {
    var rest := ms[1..];
    assert rest[1..] == [ms[2]] && [ms[2]][1..] == [];
    assert StepsOf(nm, []) == [];
    assert StepsOf(nm, [ms[2]]) == [];
  }

  lemma OneStep(step: Step)
    ensures ShowSteps([step]) == ShowRel(step.rel) + ShowNode(step.node)
  {
    assert [step][1..] == [];
    assert ShowSteps([]) == "";
    assert ShowRel(step.rel) + ShowNode(step.node) + "" == ShowRel(step.rel) + ShowNode(step.node);
  }

  // ------------------------------------------------------------- one hop inwards

  const AUTHOR_QUERY := GraphQuery(
    [Node(NodeMatch(0, ["Post"], None, [])), Hop(HopMatch(0, None, 1, In, 2, ["User"])), Node(NodeMatch(2, ["User"], None, []))],
    [], ReturnRel(1), Some(3), None)

  lemma AuthorConds()
    ensures Valid(AUTHOR_QUERY) && CondsOf(AUTHOR_QUERY) == []
  {
    HopConds(AUTHOR_QUERY);
  }

  lemma AuthorRel()
    ensures ShowRel(RelPat(1, None, In)) == "<-[v1]-"
  {
    Vars();
    hide Dec;
    assert "<-[" + "v1" + "" + "]-" == "<-[v1]-";
  }

  /** `translates_incoming_any_relationship_returning_relationship`. */
  lemma AuthorText()
    ensures Valid(AUTHOR_QUERY)
    ensures Show(Translate(AUTHOR_QUERY))
            == "MATCH " + "(v0:`Post`)" + ("<-[v1]-" + "(v2:`User`)") + "" + " RETURN " + "v0, v1, v2" + "" + " LIMIT 3"
    ensures ParamsOf(CondsOf(AUTHOR_QUERY)) == map[]
  {
    AuthorConds();
    AuthorSteps();
    Vars();
    Counts();
    NodeTexts();
    ThreeVars();
    HopColumns(AUTHOR_QUERY.matches);
    hide ShowNode, ShowSteps, Dec, Join, CondsOf, IntroVars, Dedup, NodeMatches, StepsOf, ShowPreds, ShowVars, Show, ShowVar, ShowCount;
    Assembled(Translate(AUTHOR_QUERY), "(v0:`Post`)", "<-[v1]-" + "(v2:`User`)", "", "v0, v1, v2");
  }

  lemma AuthorSteps()
    ensures var ms := AUTHOR_QUERY.matches;
            ShowSteps(StepsOf(NodeMatches(ms), ms[1..])) == "<-[v1]-" + "(v2:`User`)"
  {
    AuthorRel();
    NodeTexts();
    var ms := AUTHOR_QUERY.matches;
    HopMatches(ms);
    OneHopSteps(NodeMatches(ms), ms);
    hide ShowNode, ShowRel, NodeMatches, StepsOf, ShowSteps;
    OneStep(StepOf(NodeMatches(ms), ms[1].hop));
  }

  // ------------------------------------------------------------------ odd names

  /** `escapes_cypher_names_with_backticks`. */
  lemma OddNames()
    ensures ShowName("Odd`Label") == "`Odd``Label`" && ShowName("odd`key") == "`odd``key`"
  {
    OddLabel();
    OddKey();
  }

  lemma OddLabel()
    ensures ShowName("Odd`Label") == "`Odd``Label`"
  {
    EscapeOne("Odd", "Label");
    hide Escape;
    assert "Odd" + ("`" + "Label") == "Odd`Label" && "`" + ("Odd" + "``" + "Label") + "`" == "`Odd``Label`";
  }

  lemma OddKey()
    ensures ShowName("odd`key") == "`odd``key`"
  {
    EscapeOne("odd", "key");
    hide Escape;
    assert "odd" + ("`" + "key") == "odd`key" && "`" + ("odd" + "``" + "key") + "`" == "`odd``key`";
  }

  lemma {:induction false} EscapeOne(a: string, b: string)
    requires '`' !in a && '`' !in b
    ensures Escape(a + ("`" + b)) == a + "``" + b
  {
    if a == "" {
      EscapeIs(b);
      assert a + ("`" + b) == "`" + b && ("`" + b)[1..] == b;
    } else {
      EscapeOne(a[1..], b);
      assert (a + ("`" + b))[1..] == a[1..] + ("`" + b);
      assert [a[0]] + (a[1..] + "``" + b) == a + "``" + b;
    }
  }
}
