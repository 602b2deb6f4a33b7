/**
 Text of the Cypher fragment the translator emits: its abstract syntax, the printed form,
 and a parser for that form following the openCypher 9 grammar of MATCH, WHERE, RETURN,
 SKIP and LIMIT. The main result is `ParseShow`: parsing a printed statement gives the
 statement back, whatever its labels, types and property names contain.
 */
module CypherSyntax {
  import opened Prelude

  datatype Direction = Out | In | Both

  datatype CypherOp = OpEq | OpNe | OpGt | OpGe | OpLt | OpLe | OpContains

  datatype NodePat = NodePat(v: nat, labels: seq<string>)

  datatype RelPat = RelPat(v: nat, ty: Option<string>, dir: Direction)

  datatype Step = Step(rel: RelPat, node: NodePat)

  datatype Pred =
    | IdPred(v: nat, param: nat)
    | PropPred(v: nat, key: string, op: CypherOp, param: nat)

  datatype Statement = Statement(
    head: NodePat,
    steps: seq<Step>,
    preds: seq<Pred>,
    columns: seq<nat>,
    skip: Option<nat>,
    limit: Option<nat>)

  // ---------------------------------------------------------------- printing

  function Escape(name: string): string
  {
    if name == [] then []
    else (if name[0] == '`' then "``" else [name[0]]) + Escape(name[1..])
  }

  function ShowName(name: string): string
  {
    "`" + Escape(name) + "`"
  }

  function ShowVar(v: nat): string
  {
    "v" + Dec(v)
  }

  function ShowLabels(labels: seq<string>): string
  {
    if labels == [] then [] else ":" + ShowName(labels[0]) + ShowLabels(labels[1..])
  }

  function ShowNode(n: NodePat): string
  {
    "(" + ShowVar(n.v) + ShowLabels(n.labels) + ")"
  }

  function ShowType(ty: Option<string>): string
  {
    match ty
    case None => ""
    case Some(name) => ":" + ShowName(name)
  }

  function ShowRel(r: RelPat): string
  {
    match r.dir
    case Out => "-[" + ShowVar(r.v) + ShowType(r.ty) + "]->"
    case In => "<-[" + ShowVar(r.v) + ShowType(r.ty) + "]-"
    case Both => "-[" + ShowVar(r.v) + ShowType(r.ty) + "]-"
  }

  function ShowSteps(steps: seq<Step>): string
  {
    if steps == [] then [] else ShowRel(steps[0].rel) + ShowNode(steps[0].node) + ShowSteps(steps[1..])
  }

  function OpText(op: CypherOp): string
  {
    match op
    case OpEq => "="
    case OpNe => "<>"
    case OpGt => ">"
    case OpGe => ">="
    case OpLt => "<"
    case OpLe => "<="
    case OpContains => "CONTAINS"
  }

  function ParamName(i: nat): string
  {
    "p" + Dec(i)
  }

  function ShowPred(p: Pred): string
  {
    match p
    case IdPred(v, i) => "id(" + ShowVar(v) + ") = $" + ParamName(i)
    case PropPred(v, key, op, i) => ShowVar(v) + "." + ShowName(key) + " " + OpText(op) + " $" + ParamName(i)
  }

  /** `separator`-joined list, as the source's slice `join`. */
  function Join(parts: seq<string>, separator: string): string
  {
    if parts == [] then []
    else if |parts| == 1 then parts[0]
    else parts[0] + separator + Join(parts[1..], separator)
  }

  function ShowPreds(preds: seq<Pred>): seq<string>
  {
    seq(|preds|, i requires 0 <= i < |preds| => ShowPred(preds[i]))
  }

  function ShowVars(vars: seq<nat>): seq<string>
  {
    seq(|vars|, i requires 0 <= i < |vars| => ShowVar(vars[i]))
  }

  function ShowCount(keyword: string, n: Option<nat>): string
  {
    match n
    case None => ""
    case Some(k) => keyword + Dec(k)
  }

  function Show(s: Statement): string
  {
    "MATCH " + ShowNode(s.head) + ShowSteps(s.steps)
    + (if s.preds == [] then "" else " WHERE " + Join(ShowPreds(s.preds), " AND "))
    + " RETURN " + Join(ShowVars(s.columns), ", ")
    + ShowCount(" SKIP ", s.skip) + ShowCount(" LIMIT ", s.limit)
  }

  // ----------------------------------------------------------------- parsing

  /** A parser result: the value read and the text left over. */
  datatype Parsed<+T> = NoParse | Read(value: T, rest: string)

  predicate Shrinks<T>(p: Parsed<T>, s: string)
  {
    p.Read? ==> |p.rest| < |s|
  }

  function Expect(lit: string, s: string): (r: Option<string>)
    ensures r.Some? <==> lit <= s
    ensures r.Some? ==> s == lit + r.value
  {
    if lit <= s then Some(s[|lit|..]) else None
  }

  function ParseNat(s: string): (r: Parsed<nat>)
    ensures Shrinks(r, s)
  {
    var d := TakeDigits(s);
    if d == [] then NoParse else Read(DecValue(d), s[|d|..])
  }

  /** The body of a backtick-quoted name up to and including its closing quote. */
  function ParseQuoted(s: string): (r: Parsed<string>)
    ensures Shrinks(r, s)
  {
    if s == [] then NoParse
    else if s[0] != '`' then
      var tail := ParseQuoted(s[1..]);
      if tail.Read? then Read([s[0]] + tail.value, tail.rest) else NoParse
    else if |s| >= 2 && s[1] == '`' then
      var tail := ParseQuoted(s[2..]);
      if tail.Read? then Read(['`'] + tail.value, tail.rest) else NoParse
    else Read([], s[1..])
  }

  function ParseName(s: string): (r: Parsed<string>)
    ensures Shrinks(r, s)
  {
    if s != [] && s[0] == '`' then ParseQuoted(s[1..]) else NoParse
  }

  function ParseVar(s: string): (r: Parsed<nat>)
    ensures Shrinks(r, s)
  {
    if s != [] && s[0] == 'v' then ParseNat(s[1..]) else NoParse
  }

  /** `:`-prefixed names, as many as there are. */
  function ParseLabels(s: string): (r: Parsed<seq<string>>)
    ensures r.Read? ==> |r.rest| <= |s|
    decreases |s|
  {
    if s == [] || s[0] != ':' then Read([], s)
    else
      var name := ParseName(s[1..]);
      if name.NoParse? then NoParse
      else
        var more := ParseLabels(name.rest);
        if more.NoParse? then NoParse else Read([name.value] + more.value, more.rest)
  }

  function ParseNode(s: string): (r: Parsed<NodePat>)
    ensures Shrinks(r, s)
  {
    if s == [] || s[0] != '(' then NoParse
    else
      var v := ParseVar(s[1..]);
      if v.NoParse? then NoParse
      else
        var labels := ParseLabels(v.rest);
        if labels.Read? && labels.rest != [] && labels.rest[0] == ')'
        then Read(NodePat(v.value, labels.value), labels.rest[1..])
        else NoParse
  }

  /** Variable and optional type between the brackets, through the closing `]-`. */
  function ParseRelBody(s: string): (r: Parsed<(nat, Option<string>)>)
    ensures Shrinks(r, s)
  {
    var v := ParseVar(s);
    if v.NoParse? then NoParse
    else if v.rest != [] && v.rest[0] == ':' then
      var name := ParseName(v.rest[1..]);
      if name.NoParse? then NoParse
      else
        var close := Expect("]-", name.rest);
        if close.None? then NoParse else Read((v.value, Some(name.value)), close.value)
    else
      var close := Expect("]-", v.rest);
      if close.None? then NoParse else Read((v.value, None), close.value)
  }

  function ParseRel(s: string): (r: Parsed<RelPat>)
    ensures Shrinks(r, s)
  {
    if s != [] && s[0] == '<' then
      var open := Expect("<-[", s);
      if open.None? then NoParse
      else
        var body := ParseRelBody(open.value);
        if body.NoParse? then NoParse
        else Read(RelPat(body.value.0, body.value.1, In), body.rest)
    else
      var open := Expect("-[", s);
      if open.None? then NoParse
      else
        var body := ParseRelBody(open.value);
        if body.NoParse? then NoParse
        else if body.rest != [] && body.rest[0] == '>'
        then Read(RelPat(body.value.0, body.value.1, Out), body.rest[1..])
        else Read(RelPat(body.value.0, body.value.1, Both), body.rest)
  }

  function ParseSteps(s: string): (r: Parsed<seq<Step>>)
    ensures r.Read? ==> |r.rest| <= |s|
    decreases |s|
  {
    if s == [] || (s[0] != '-' && s[0] != '<') then Read([], s)
    else
      var rel := ParseRel(s);
      if rel.NoParse? then NoParse
      else
        var node := ParseNode(rel.rest);
        if node.NoParse? then NoParse
        else
          var more := ParseSteps(node.rest);
          if more.NoParse? then NoParse
          else Read([Step(rel.value, node.value)] + more.value, more.rest)
  }

  /** A comparison operator together with the ` $p` that introduces its parameter. */
  function ParseOp(s: string): (r: Parsed<CypherOp>)
    ensures Shrinks(r, s)
  {
    if "= $p" <= s then Read(OpEq, s[4..])
    else if "<> $p" <= s then Read(OpNe, s[5..])
    else if "> $p" <= s then Read(OpGt, s[4..])
    else if ">= $p" <= s then Read(OpGe, s[5..])
    else if "< $p" <= s then Read(OpLt, s[4..])
    else if "<= $p" <= s then Read(OpLe, s[5..])
    else if "CONTAINS $p" <= s then Read(OpContains, s[11..])
    else NoParse
  }

  function ParsePred(s: string): (r: Parsed<Pred>)
    ensures Shrinks(r, s)
  {
    if s != [] && s[0] == 'i' then
      var open := Expect("id(", s);
      if open.None? then NoParse
      else
        var v := ParseVar(open.value);
        if v.NoParse? then NoParse
        else
          var eq := Expect(") = $p", v.rest);
          if eq.None? then NoParse
          else
            var i := ParseNat(eq.value);
            if i.NoParse? then NoParse else Read(IdPred(v.value, i.value), i.rest)
    else
      var v := ParseVar(s);
      if v.NoParse? || v.rest == [] || v.rest[0] != '.' then NoParse
      else
        var key := ParseName(v.rest[1..]);
        if key.NoParse? || key.rest == [] || key.rest[0] != ' ' then NoParse
        else
          var op := ParseOp(key.rest[1..]);
          if op.NoParse? then NoParse
          else
            var i := ParseNat(op.rest);
            if i.NoParse? then NoParse
            else Read(PropPred(v.value, key.value, op.value, i.value), i.rest)
  }

  function ParsePreds(s: string): (r: Parsed<seq<Pred>>)
    ensures Shrinks(r, s)
    decreases |s|
  {
    var p := ParsePred(s);
    if p.NoParse? then NoParse
    else
      var more := Expect(" AND ", p.rest);
      if more.None? then Read([p.value], p.rest)
      else
        var tail := ParsePreds(more.value);
        if tail.NoParse? then NoParse else Read([p.value] + tail.value, tail.rest)
  }

  function ParseVars(s: string): (r: Parsed<seq<nat>>)
    ensures Shrinks(r, s)
    decreases |s|
  {
    var v := ParseVar(s);
    if v.NoParse? then NoParse
    else
      var more := Expect(", ", v.rest);
      if more.None? then Read([v.value], v.rest)
      else
        var tail := ParseVars(more.value);
        if tail.NoParse? then NoParse else Read([v.value] + tail.value, tail.rest)
  }

  /** An optional `keyword n` clause. */
  function ParseCount(keyword: string, s: string): Parsed<Option<nat>>
  {
    var k := Expect(keyword, s);
    if k.None? then Read(None, s)
    else
      var n := ParseNat(k.value);
      if n.NoParse? then NoParse else Read(Some(n.value), n.rest)
  }

  function ParseWhere(s: string): Parsed<seq<Pred>>
  {
    var w := Expect(" WHERE ", s);
    if w.None? then Read([], s) else ParsePreds(w.value)
  }

  /** `RETURN` and everything after it; the whole text must be used up. */
  function ParseTail(head: NodePat, steps: seq<Step>, preds: seq<Pred>, s: string): Option<Statement>
  {
    var r := Expect(" RETURN ", s);
    if r.None? then None
    else
      var vars := ParseVars(r.value);
      if vars.NoParse? then None
      else
        var skip := ParseCount(" SKIP ", vars.rest);
        if skip.NoParse? then None
        else
          var limit := ParseCount(" LIMIT ", skip.rest);
          if limit.Read? && limit.rest == []
          then Some(Statement(head, steps, preds, vars.value, skip.value, limit.value))
          else None
  }

  function Parse(s: string): Option<Statement>
  {
    var m := Expect("MATCH ", s);
    if m.None? then None
    else
      var head := ParseNode(m.value);
      if head.NoParse? then None
      else
        var steps := ParseSteps(head.rest);
        if steps.NoParse? then None
        else
          var preds := ParseWhere(steps.rest);
          if preds.NoParse? then None
          else ParseTail(head.value, steps.value, preds.value, preds.rest)
  }

  // -------------------------------------------------------------- round trip

  lemma ParseNatShow(n: nat, rest: string)
    requires rest == [] || !IsDigit(rest[0])
    ensures ParseNat(Dec(n) + rest) == Read(n, rest)
  {
    TakeDigitsExact(Dec(n), rest);
    DecRoundTrip(n);
  }

  lemma ParseVarShow(v: nat, rest: string)
    requires rest == [] || !IsDigit(rest[0])
    ensures ParseVar(ShowVar(v) + rest) == Read(v, rest)
  {
    Assoc3("v", Dec(v), rest);
    DropPrefix("v", Dec(v) + rest);
    ParseNatShow(v, rest);
  }

  /** Doubling backticks is uniquely decodable as long as no backtick follows the closing quote. */
  lemma {:induction false} ParseQuotedShow(name: string, rest: string)
    requires rest == [] || rest[0] != '`'
    ensures ParseQuoted(Escape(name) + ("`" + rest)) == Read(name, rest)
  {
    var close := "`" + rest;
    if name == [] {
      assert Escape(name) + close == close;
      assert close[1..] == rest;
    } else {
      ParseQuotedShow(name[1..], rest);
      var quoted := if name[0] == '`' then "``" else [name[0]];
      var tail := Escape(name[1..]) + close;
      Assoc3(quoted, Escape(name[1..]), close);
      DropPrefix(quoted, tail);
      assert name == [name[0]] + name[1..];
    }
  }

  lemma ParseNameShow(name: string, rest: string)
    requires rest == [] || rest[0] != '`'
    ensures ParseName(ShowName(name) + rest) == Read(name, rest)
  {
    Assoc4("`", Escape(name), "`", rest);
    DropPrefix("`", Escape(name) + ("`" + rest));
    ParseQuotedShow(name, rest);
  }

  lemma {:induction false} ParseLabelsShow(labels: seq<string>, rest: string)
    requires rest != [] && rest[0] == ')'
    ensures ParseLabels(ShowLabels(labels) + rest) == Read(labels, rest)
  {
    if labels == [] {
      assert ShowLabels(labels) + rest == rest;
    } else {
      var name, more := ShowName(labels[0]), ShowLabels(labels[1..]) + rest;
      Assoc4(":", name, ShowLabels(labels[1..]), rest);
      DropPrefix(":", name + more);
      ParseLabelsShow(labels[1..], rest);
      LabelsHead(labels[1..], rest);
      ParseNameShow(labels[0], more);
      assert labels == [labels[0]] + labels[1..];
    }
  }

  lemma LabelsHead(labels: seq<string>, rest: string)
    requires rest != [] && rest[0] == ')'
    ensures ShowLabels(labels) + rest != []
    ensures (ShowLabels(labels) + rest)[0] == if labels == [] then ')' else ':'
  {
  }

  lemma ParseNodeShow(n: NodePat, rest: string)
    ensures ParseNode(ShowNode(n) + rest) == Read(n, rest)
  {
    var close := ")" + rest;
    var labels := ShowLabels(n.labels) + close;
    Assoc5("(", ShowVar(n.v), ShowLabels(n.labels), ")", rest);
    DropPrefix("(", ShowVar(n.v) + labels);
    LabelsHead(n.labels, close);
    ParseVarShow(n.v, labels);
    ParseLabelsShow(n.labels, close);
    DropPrefix(")", rest);
  }

  lemma ParseRelBodyShow(v: nat, ty: Option<string>, rest: string)
    ensures ParseRelBody(ShowVar(v) + (ShowType(ty) + ("]-" + rest))) == Read((v, ty), rest)
  {
    var close := "]-" + rest;
    DropPrefix("]-", rest);
    match ty {
      case None =>
        assert ShowType(ty) + close == close;
        ParseVarShow(v, close);
      case Some(name) =>
        Assoc3(":", ShowName(name), close);
        ParseVarShow(v, ":" + (ShowName(name) + close));
        DropPrefix(":", ShowName(name) + close);
        ParseNameShow(name, close);
    }
  }

  /** What follows the opening bracket of a printed relationship. */
  function RelBody(r: RelPat, rest: string): string
  {
    ShowVar(r.v) + (ShowType(r.ty) + ("]-" + (if r.dir.Out? then ">" + rest else rest)))
  }

  lemma ShowRelOpens(r: RelPat, rest: string)
    ensures ShowRel(r) + rest == (if r.dir.In? then "<-[" else "-[") + RelBody(r, rest)
  {
    match r.dir {
      case Out =>
        Assoc5("-[", ShowVar(r.v), ShowType(r.ty), "]->", rest);
        Assoc3("]-", ">", rest);
        assert "]->" == "]-" + ">";
      case In =>
        Assoc5("<-[", ShowVar(r.v), ShowType(r.ty), "]-", rest);
      case Both =>
        Assoc5("-[", ShowVar(r.v), ShowType(r.ty), "]-", rest);
    }
  }

  lemma ParseRelIn(s: string, body: string, v: nat, ty: Option<string>, rest: string)
    requires s == "<-[" + body
    requires ParseRelBody(body) == Read((v, ty), rest)
    ensures ParseRel(s) == Read(RelPat(v, ty, In), rest)
  {
    DropPrefix("<-[", body);
  }

  lemma ParseRelForward(s: string, body: string, v: nat, ty: Option<string>, rest: string)
    requires s == "-[" + body
    requires ParseRelBody(body) == Read((v, ty), rest)
    requires rest != []
    ensures ParseRel(s) == if rest[0] == '>' then Read(RelPat(v, ty, Out), rest[1..]) else Read(RelPat(v, ty, Both), rest)
  {
    DropPrefix("-[", body);
    assert s[0] == '-';
  }

  lemma ParseRelShow(r: RelPat, rest: string)
    requires rest != [] && rest[0] == '('
    ensures ParseRel(ShowRel(r) + rest) == Read(r, rest)
  {
    hide ParseRel, ParseRelBody, ShowRel, ShowVar, ShowType;
    var tail := if r.dir.Out? then ">" + rest else rest;
    ShowRelOpens(r, rest);
    ParseRelBodyShow(r.v, r.ty, tail);
    if r.dir.In? {
      ParseRelIn("<-[" + RelBody(r, rest), RelBody(r, rest), r.v, r.ty, tail);
    } else {
      assert tail[0] == if r.dir.Out? then '>' else '(';
      assert tail[1..] == if r.dir.Out? then rest else rest[1..];
      ParseRelForward("-[" + RelBody(r, rest), RelBody(r, rest), r.v, r.ty, tail);
    }
  }

  lemma ParseStepsCons(s: string, rel: RelPat, s1: string, node: NodePat, s2: string, more: seq<Step>, rest: string)
    requires s != [] && (s[0] == '-' || s[0] == '<')
    requires ParseRel(s) == Read(rel, s1) && ParseNode(s1) == Read(node, s2) && ParseSteps(s2) == Read(more, rest)
    ensures ParseSteps(s) == Read([Step(rel, node)] + more, rest)
  {
    hide ParseRel, ParseNode;
  }

  lemma {:induction false} ParseStepsShow(steps: seq<Step>, rest: string)
    requires rest != [] && rest[0] == ' '
    ensures ParseSteps(ShowSteps(steps) + rest) == Read(steps, rest)
  {
    if steps == [] {
      assert ShowSteps(steps) + rest == rest;
    } else {
      var rel, node := ShowRel(steps[0].rel), ShowNode(steps[0].node);
      var more := ShowSteps(steps[1..]) + rest;
      Assoc4(rel, node, ShowSteps(steps[1..]), rest);
      assert rel[0] == '-' || rel[0] == '<';
      assert (node + more)[0] == node[0] == '(';
      ParseRelShow(steps[0].rel, node + more);
      ParseNodeShow(steps[0].node, more);
      ParseStepsShow(steps[1..], rest);
      ParseStepsCons(rel + (node + more), steps[0].rel, node + more, steps[0].node, more, steps[1..], rest);
      assert steps == [steps[0]] + steps[1..];
    }
  }

  lemma ParseOpShow(op: CypherOp, rest: string)
    ensures ParseOp(OpText(op) + " $p" + rest) == Read(op, rest)
  {
    var text := OpText(op) + " $p";
    DropPrefix(text, rest);
    var s := text + rest;
    assert s[0] == text[0] && s[1] == text[1] && s[2] == text[2];
    match op {
      case OpEq => assert text == "= $p";
      case OpNe => assert text == "<> $p";
      case OpGt => assert text == "> $p";
      case OpGe => assert text == ">= $p";
      case OpLt => assert text == "< $p";
      case OpLe => assert text == "<= $p";
      case OpContains => assert text == "CONTAINS $p";
    }
  }

  lemma ShowIdPredOpens(v: nat, i: nat, rest: string)
    ensures ShowPred(IdPred(v, i)) + rest == "id(" + (ShowVar(v) + (") = $p" + (Dec(i) + rest)))
  {
    Assoc5("id(", ShowVar(v), ") = $", ParamName(i), rest);
    Assoc3("p", Dec(i), rest);
    Assoc3(") = $", "p", Dec(i) + rest);
    assert ") = $" + "p" == ") = $p";
  }

  lemma ParseIdPred(s: string, s1: string, v: nat, s2: string, i: nat, rest: string)
    requires s == "id(" + s1 && ParseVar(s1) == Read(v, ") = $p" + s2) && ParseNat(s2) == Read(i, rest)
    ensures ParsePred(s) == Read(IdPred(v, i), rest)
  {
    hide ParseVar, ParseNat;
    DropPrefix("id(", s1);
    DropPrefix(") = $p", s2);
    assert s[0] == 'i';
  }

  lemma ParseIdPredShow(v: nat, i: nat, rest: string)
    requires rest == [] || !IsDigit(rest[0])
    ensures ParsePred(ShowPred(IdPred(v, i)) + rest) == Read(IdPred(v, i), rest)
  {
    var param := Dec(i) + rest;
    var eq := ") = $p" + param;
    ShowIdPredOpens(v, i, rest);
    ParseVarShow(v, eq);
    ParseNatShow(i, rest);
    ParseIdPred(ShowPred(IdPred(v, i)) + rest, ShowVar(v) + eq, v, param, i, rest);
  }

  lemma ShowPropPredOpens(v: nat, key: string, op: CypherOp, i: nat, rest: string)
    ensures ShowPred(PropPred(v, key, op, i)) + rest
            == ShowVar(v) + ("." + (ShowName(key) + (" " + (OpText(op) + " $p" + (Dec(i) + rest)))))
  {
    var name, text := ShowName(key), OpText(op);
    Assoc5(ShowVar(v) + "." + name + " ", text, " $", ParamName(i), rest);
    Assoc3("p", Dec(i), rest);
    Assoc3(" $", "p", Dec(i) + rest);
    assert " $" + "p" == " $p";
    Assoc3(text, " $p", Dec(i) + rest);
    Assoc5(ShowVar(v), ".", name, " ", text + " $p" + (Dec(i) + rest));
  }

  lemma ParsePropPredShow(v: nat, key: string, op: CypherOp, i: nat, rest: string)
    requires rest == [] || !IsDigit(rest[0])
    ensures ParsePred(ShowPred(PropPred(v, key, op, i)) + rest) == Read(PropPred(v, key, op, i), rest)
  {
    hide ParsePred, ParseVar, ParseName, ParseOp, ParseNat, ShowPred, ShowName, ShowVar, OpText, Dec;
    var cmp := OpText(op) + " $p" + (Dec(i) + rest);
    var named := ShowName(key) + (" " + cmp);
    ShowPropPredOpens(v, key, op, i, rest);
    ParseVarShow(v, "." + named);
    ParseNameShow(key, " " + cmp);
    ParseOpShow(op, Dec(i) + rest);
    ParseNatShow(i, rest);
    VarOpens(v);
    ParsePropPred(ShowVar(v) + ("." + named), v, named, key, cmp, op, Dec(i) + rest, i, rest);
  }

  lemma VarOpens(v: nat)
    ensures ShowVar(v) != [] && ShowVar(v)[0] == 'v'
  {
  }

  lemma ParsePropPred(s: string, v: nat, named: string, key: string, cmp: string, op: CypherOp, num: string, i: nat, rest: string)
    requires s != [] && s[0] != 'i'
    requires ParseVar(s) == Read(v, "." + named) && ParseName(named) == Read(key, " " + cmp)
    requires ParseOp(cmp) == Read(op, num) && ParseNat(num) == Read(i, rest)
    ensures ParsePred(s) == Read(PropPred(v, key, op, i), rest)
  {
    hide ParseVar, ParseName, ParseOp, ParseNat;
    DropPrefix(".", named);
    DropPrefix(" ", cmp);
  }

  lemma ParsePredShow(p: Pred, rest: string)
    requires rest == [] || !IsDigit(rest[0])
    ensures ParsePred(ShowPred(p) + rest) == Read(p, rest)
  {
    match p {
      case IdPred(v, i) => ParseIdPredShow(v, i, rest);
      case PropPred(v, key, op, i) => ParsePropPredShow(v, key, op, i, rest);
    }
  }

  lemma JoinCons(first: string, more: seq<string>, separator: string, rest: string)
    requires more != []
    ensures Join([first] + more, separator) + rest == first + (separator + (Join(more, separator) + rest))
  {
    assert ([first] + more)[1..] == more;
    Assoc4(first, separator, Join(more, separator), rest);
  }

  lemma ParsePredsCons(s: string, p: Pred, s1: string, more: seq<Pred>, rest: string)
    requires ParsePred(s) == Read(p, " AND " + s1) && ParsePreds(s1) == Read(more, rest)
    ensures ParsePreds(s) == Read([p] + more, rest)
  {
    DropPrefix(" AND ", s1);
  }

  lemma ParsePredsLast(s: string, p: Pred, rest: string)
    requires |rest| > 1 && rest[1] == 'R'
    requires ParsePred(s) == Read(p, rest)
    ensures ParsePreds(s) == Read([p], rest)
  {
    var separator := " AND ";
    assert separator[1] != rest[1];
  }

  lemma JoinPreds(p: Pred, more: seq<Pred>, rest: string)
    ensures Join(ShowPreds([p] + more), " AND ") + rest
            == ShowPred(p) + (if more == [] then rest else " AND " + (Join(ShowPreds(more), " AND ") + rest))
  {
    assert ShowPreds([p] + more) == [ShowPred(p)] + ShowPreds(more);
    if more != [] {
      JoinCons(ShowPred(p), ShowPreds(more), " AND ", rest);
    }
  }

  lemma {:induction false} ParsePredsShow(preds: seq<Pred>, rest: string)
    requires preds != []
    requires |rest| > 1 && rest[0] == ' ' && rest[1] == 'R'
    ensures ParsePreds(Join(ShowPreds(preds), " AND ") + rest) == Read(preds, rest)
  {
    var p, more := preds[0], preds[1..];
    assert preds == [p] + more;
    JoinPreds(p, more, rest);
    if more == [] {
      ParsePredShow(p, rest);
      ParsePredsLast(ShowPred(p) + rest, p, rest);
      assert preds == [p];
    } else {
      var tail := Join(ShowPreds(more), " AND ") + rest;
      ParsePredShow(p, " AND " + tail);
      ParsePredsShow(more, rest);
      ParsePredsCons(ShowPred(p) + (" AND " + tail), p, tail, more, rest);
    }
  }

  lemma ParseVarsCons(s: string, v: nat, s1: string, more: seq<nat>, rest: string)
    requires ParseVar(s) == Read(v, ", " + s1) && ParseVars(s1) == Read(more, rest)
    ensures ParseVars(s) == Read([v] + more, rest)
  {
    DropPrefix(", ", s1);
  }

  lemma {:induction false} ParseVarsShow(vars: seq<nat>, rest: string)
    requires vars != []
    requires rest == [] || rest[0] == ' '
    ensures ParseVars(Join(ShowVars(vars), ", ") + rest) == Read(vars, rest)
  {
    if |vars| == 1 {
      ParseVarShow(vars[0], rest);
      assert vars == [vars[0]];
    } else {
      var more := ShowVars(vars[1..]);
      assert ShowVars(vars) == [ShowVar(vars[0])] + more;
      var tail := Join(more, ", ") + rest;
      JoinCons(ShowVar(vars[0]), more, ", ", rest);
      ParseVarShow(vars[0], ", " + tail);
      ParseVarsShow(vars[1..], rest);
      ParseVarsCons(ShowVar(vars[0]) + (", " + tail), vars[0], tail, vars[1..], rest);
      assert vars == [vars[0]] + vars[1..];
    }
  }

  lemma ParseCountShow(keyword: string, n: Option<nat>, rest: string)
    requires |keyword| > 1
    requires rest == [] || (|rest| > 1 && rest[1] != keyword[1] && !IsDigit(rest[0]))
    ensures ParseCount(keyword, ShowCount(keyword, n) + rest) == Read(n, rest)
  {
    match n {
      case None =>
        assert ShowCount(keyword, n) + rest == rest;
      case Some(k) =>
        Assoc3(keyword, Dec(k), rest);
        DropPrefix(keyword, Dec(k) + rest);
        ParseNatShow(k, rest);
    }
  }

  function ShowTail(s: Statement): string
  {
    " RETURN " + (Join(ShowVars(s.columns), ", ") + (ShowCount(" SKIP ", s.skip) + ShowCount(" LIMIT ", s.limit)))
  }

  lemma ParseTailFrom(s: Statement, vars: string, s1: string, s2: string)
    requires ParseVars(vars) == Read(s.columns, s1)
    requires ParseCount(" SKIP ", s1) == Read(s.skip, s2)
    requires ParseCount(" LIMIT ", s2) == Read(s.limit, [])
    ensures ParseTail(s.head, s.steps, s.preds, " RETURN " + vars) == Some(s)
  {
    hide ParseVars, ParseCount;
    DropPrefix(" RETURN ", vars);
  }

  lemma CountOpens(keyword: string, n: Option<nat>)
    requires |keyword| > 1
    ensures ShowCount(keyword, n) == [] || (|ShowCount(keyword, n)| > 1 && ShowCount(keyword, n)[..2] == keyword[..2])
  {
    hide Dec;
  }

  lemma ParseTailShow(s: Statement)
    requires s.columns != []
    ensures ParseTail(s.head, s.steps, s.preds, ShowTail(s)) == Some(s)
  {
    var limit := ShowCount(" LIMIT ", s.limit);
    var counts := ShowCount(" SKIP ", s.skip) + limit;
    CountOpens(" LIMIT ", s.limit);
    CountOpens(" SKIP ", s.skip);
    assert " LIMIT "[..2] == " L" && " SKIP "[..2] == " S";
    hide ParseTail, ParseVars, ParseCount, Join, ShowVars, ShowCount;
    assert counts == [] || counts[0] == ' ';
    ParseVarsShow(s.columns, counts);
    ParseCountShow(" SKIP ", s.skip, limit);
    ParseCountShow(" LIMIT ", s.limit, []);
    assert limit + [] == limit;
    ParseTailFrom(s, Join(ShowVars(s.columns), ", ") + counts, counts, limit);
  }

  lemma ParseWhereSome(s: string)
    ensures ParseWhere(" WHERE " + s) == ParsePreds(s)
  {
    DropPrefix(" WHERE ", s);
  }

  lemma ParseWhereNone(tail: string)
    requires |tail| > 1 && tail[1] == 'R'
    ensures ParseWhere(tail) == Read([], tail)
  {
    var keyword := " WHERE ";
    assert keyword[1] == 'W';
  }

  lemma ParseWhereShow(preds: seq<Pred>, tail: string)
    requires |tail| > 1 && tail[0] == ' ' && tail[1] == 'R'
    ensures ParseWhere((if preds == [] then "" else " WHERE " + Join(ShowPreds(preds), " AND ")) + tail)
            == Read(preds, tail)
  {
    hide ParseWhere, ParsePreds, Join, ShowPreds;
    if preds == [] {
      assert "" + tail == tail;
      ParseWhereNone(tail);
    } else {
      var body := Join(ShowPreds(preds), " AND ");
      Assoc3(" WHERE ", body, tail);
      ParsePredsShow(preds, tail);
      ParseWhereSome(body + tail);
    }
  }

  lemma ShowOpens(s: Statement)
    ensures Show(s) == "MATCH " + (ShowNode(s.head) + (ShowSteps(s.steps)
      + ((if s.preds == [] then "" else " WHERE " + Join(ShowPreds(s.preds), " AND ")) + ShowTail(s))))
  {
    var preds := if s.preds == [] then "" else " WHERE " + Join(ShowPreds(s.preds), " AND ");
    var vars, skip, limit := Join(ShowVars(s.columns), ", "), ShowCount(" SKIP ", s.skip), ShowCount(" LIMIT ", s.limit);
    var matched := "MATCH " + ShowNode(s.head) + ShowSteps(s.steps) + preds;
    Assoc5(matched, " RETURN ", vars, skip, limit);
    Assoc5("MATCH ", ShowNode(s.head), ShowSteps(s.steps), preds, ShowTail(s));
  }

  lemma ParseFrom(s: Statement, s0: string, s1: string, s2: string, s3: string)
    requires ParseNode(s0) == Read(s.head, s1)
    requires ParseSteps(s1) == Read(s.steps, s2)
    requires ParseWhere(s2) == Read(s.preds, s3)
    requires ParseTail(s.head, s.steps, s.preds, s3) == Some(s)
    ensures Parse("MATCH " + s0) == Some(s)
  {
    DropPrefix("MATCH ", s0);
  }

  /** Parsing the printed text of any statement that returns something recovers the statement. */
  lemma ParseShow(s: Statement)
    requires s.columns != []
    ensures Parse(Show(s)) == Some(s)
  {
    var tail := ShowTail(s);
    var preds := (if s.preds == [] then "" else " WHERE " + Join(ShowPreds(s.preds), " AND ")) + tail;
    var steps := ShowSteps(s.steps) + preds;
    ShowOpens(s);
    ParseNodeShow(s.head, steps);
    assert tail[0] == ' ' && tail[1] == 'R';
    assert preds[0] == ' ';
    ParseStepsShow(s.steps, preds);
    ParseWhereShow(s.preds, tail);
    ParseTailShow(s);
    ParseFrom(s, ShowNode(s.head) + steps, steps, preds, tail);
  }
}
