/**
 The runtime schema catalog (src/runtime/catalog.rs, src/runtime/session.rs), definitions
 against it, and replay of the append log over a base file.
 */
module SchemaCatalog {
  import opened Prelude

  /** `fields` stands for everything a model carries besides its name and endpoints. */
  datatype NodeModel = NodeModel(name: string, fields: seq<string>)

  datatype RelModel = RelModel(name: string, from: string, to: string, fields: seq<string>)

  datatype Catalog = Catalog(nodes: map<string, NodeModel>, rels: map<string, RelModel>)

  datatype Op = RegisterNode(node: NodeModel) | RegisterRel(rel: RelModel)

  datatype SchemaError = AlreadyExists(name: string) | FromUndefined(name: string) | ToUndefined(name: string)

  const EMPTY: Catalog := Catalog(map[], map[])

  function RegisterNodeModel(c: Catalog, m: NodeModel): Result<Catalog, SchemaError>
  {
    if m.name in c.nodes || m.name in c.rels then Failure(AlreadyExists(m.name))
    else Success(c.(nodes := c.nodes[m.name := m]))
  }

  function RegisterRelModel(c: Catalog, m: RelModel): Result<Catalog, SchemaError>
  {
    if m.name in c.nodes || m.name in c.rels then Failure(AlreadyExists(m.name))
    else Success(c.(rels := c.rels[m.name := m]))
  }

  /** A definition: endpoints of a relationship model must be defined already. */
  function Define(c: Catalog, op: Op): Result<Catalog, SchemaError>
  {
    match op
    case RegisterNode(m) => RegisterNodeModel(c, m)
    case RegisterRel(m) =>
      if m.from !in c.nodes then Failure(FromUndefined(m.from))
      else if m.to !in c.nodes then Failure(ToUndefined(m.to))
      else RegisterRelModel(c, m)
  }

  /** A batch's definitions in order; the first error ends it. */
  function DefineAll(c: Catalog, ops: seq<Op>): Result<Catalog, SchemaError>
    decreases |ops|
  {
    if ops == [] then Success(c)
    else
      var first := Define(c, ops[0]);
      if first.Failure? then first else DefineAll(first.value, ops[1..])
  }

  /** One log record: a model already there is skipped, endpoints are not looked at. */
  function ReplayEntry(c: Catalog, op: Op): Result<Catalog, SchemaError>
  {
    match op
    case RegisterNode(m) => if m.name in c.nodes then Success(c) else RegisterNodeModel(c, m)
    case RegisterRel(m) => if m.name in c.rels then Success(c) else RegisterRelModel(c, m)
  }

  function Replay(c: Catalog, log: seq<Op>): Result<Catalog, SchemaError>
  {
    if log == [] then Success(c)
    else
      var before := Replay(c, log[..|log| - 1]);
      if before.Failure? then before else ReplayEntry(before.value, log[|log| - 1])
  }

  // --------------------------------------------------------------- relations

  /** No name is both a node model and a relationship model. */
  predicate KindsDisjoint(c: Catalog)
  {
    c.nodes.Keys !! c.rels.Keys
  }

  /** Every relationship model's endpoints are defined. */
  predicate EndpointsDefined(c: Catalog)
  {
    forall name :: name in c.rels ==> c.rels[name].from in c.nodes && c.rels[name].to in c.nodes
  }

  ghost predicate Includes(big: Catalog, small: Catalog)
  {
    && (forall name :: name in small.nodes ==> name in big.nodes && big.nodes[name] == small.nodes[name])
    && (forall name :: name in small.rels ==> name in big.rels && big.rels[name] == small.rels[name])
  }

  predicate Present(c: Catalog, op: Op)
  {
    match op
    case RegisterNode(m) => m.name in c.nodes && c.nodes[m.name] == m
    case RegisterRel(m) => m.name in c.rels && c.rels[m.name] == m
  }

  ghost predicate AllPresent(c: Catalog, ops: seq<Op>)
  {
    forall op :: op in ops ==> Present(c, op)
  }

  function NameOf(op: Op): string
  {
    if op.RegisterNode? then op.node.name else op.rel.name
  }

  predicate HasName(c: Catalog, name: string)
  {
    name in c.nodes || name in c.rels
  }

  ghost predicate DistinctNames(ops: seq<Op>)
  {
    forall i, j :: 0 <= i < j < |ops| ==> NameOf(ops[i]) != NameOf(ops[j])
  }

  // ------------------------------------------------- which definitions are accepted

  /** A free name, and for an edge model endpoints that are node models. */
  predicate Acceptable(c: Catalog, op: Op)
  {
    match op
    case RegisterNode(m) => m.name !in c.nodes && m.name !in c.rels
    case RegisterRel(m) => m.name !in c.nodes && m.name !in c.rels && m.from in c.nodes && m.to in c.nodes
  }

  /** `d` holds what `c` holds and the model defined, and nothing else. */
  ghost predicate Added(c: Catalog, op: Op, d: Catalog)
  {
    && (forall name :: name in d.nodes <==> name in c.nodes || (op.RegisterNode? && name == op.node.name))
    && (forall name :: name in d.rels <==> name in c.rels || (op.RegisterRel? && name == op.rel.name))
    && (forall name :: name in c.nodes ==> d.nodes[name] == c.nodes[name])
    && (forall name :: name in c.rels ==> d.rels[name] == c.rels[name])
    && (op.RegisterNode? ==> d.nodes[op.node.name] == op.node)
    && (op.RegisterRel? ==> d.rels[op.rel.name] == op.rel)
  }

  /** What is wrong with a definition; endpoints are looked at before the name. */
  predicate Refused(c: Catalog, op: Op, error: SchemaError)
  {
    match error
    case FromUndefined(name) => op.RegisterRel? && name == op.rel.from && op.rel.from !in c.nodes
    case ToUndefined(name) => op.RegisterRel? && name == op.rel.to && op.rel.from in c.nodes && op.rel.to !in c.nodes
    case AlreadyExists(name) =>
      name == NameOf(op) && HasName(c, name) && (op.RegisterRel? ==> op.rel.from in c.nodes && op.rel.to in c.nodes)
  }

  lemma DefineExactly(c: Catalog, op: Op)
    ensures Define(c, op).Success? <==> Acceptable(c, op)
    ensures Define(c, op).Success? ==> Added(c, op, Define(c, op).value)
    ensures Define(c, op).Failure? ==> Refused(c, op, Define(c, op).error)
  {
  }

  /** A node model of this name is in the catalog or among the first i definitions. */
  ghost predicate NodeBy(c: Catalog, ops: seq<Op>, i: nat, name: string)
    requires i <= |ops|
  {
    name in c.nodes || exists j :: 0 <= j < i && ops[j].RegisterNode? && ops[j].node.name == name
  }

  ghost predicate RelBy(c: Catalog, ops: seq<Op>, i: nat, name: string)
    requires i <= |ops|
  {
    name in c.rels || exists j :: 0 <= j < i && ops[j].RegisterRel? && ops[j].rel.name == name
  }

  /** Definition i of a batch is acceptable after those before it. */
  ghost predicate AcceptableAt(c: Catalog, ops: seq<Op>, i: nat)
    requires i < |ops|
  {
    && !NodeBy(c, ops, i, NameOf(ops[i])) && !RelBy(c, ops, i, NameOf(ops[i]))
    && (ops[i].RegisterRel? ==> NodeBy(c, ops, i, ops[i].rel.from) && NodeBy(c, ops, i, ops[i].rel.to))
  }

  ghost predicate RefusedAt(c: Catalog, ops: seq<Op>, i: nat, error: SchemaError)
    requires i < |ops|
  {
    var op := ops[i];
    match error
    case FromUndefined(name) => op.RegisterRel? && name == op.rel.from && !NodeBy(c, ops, i, name)
    case ToUndefined(name) => op.RegisterRel? && name == op.rel.to && NodeBy(c, ops, i, op.rel.from) && !NodeBy(c, ops, i, name)
    case AlreadyExists(name) =>
      && name == NameOf(op) && (NodeBy(c, ops, i, name) || RelBy(c, ops, i, name))
      && (op.RegisterRel? ==> NodeBy(c, ops, i, op.rel.from) && NodeBy(c, ops, i, op.rel.to))
  }

  /** `d` holds what `c` holds and the models defined, and nothing else. */
  ghost predicate AddedAll(c: Catalog, ops: seq<Op>, d: Catalog)
  {
    && (forall name :: name in d.nodes <==> NodeBy(c, ops, |ops|, name))
    && (forall name :: name in d.rels <==> RelBy(c, ops, |ops|, name))
    && Includes(d, c) && AllPresent(d, ops)
  }

  /** After the first definition the rest of a batch sees what it added. */
  lemma AfterFirst(c: Catalog, ops: seq<Op>, d: Catalog, i: nat, name: string)
    requires ops != [] && i <= |ops| - 1 && Added(c, ops[0], d)
    ensures NodeBy(c, ops, i + 1, name) <==> NodeBy(d, ops[1..], i, name)
    ensures RelBy(c, ops, i + 1, name) <==> RelBy(d, ops[1..], i, name)
  {
    assert forall j :: 0 <= j < i ==> ops[1..][j] == ops[j + 1];
    if j :| 0 <= j < i + 1 && ops[j].RegisterNode? && ops[j].node.name == name {
      assert j == 0 || ops[1..][j - 1] == ops[j];
    }
    if j :| 0 <= j < i + 1 && ops[j].RegisterRel? && ops[j].rel.name == name {
      assert j == 0 || ops[1..][j - 1] == ops[j];
    }
  }

  lemma RestAcceptable(c: Catalog, ops: seq<Op>, d: Catalog, i: nat)
    requires ops != [] && i < |ops| - 1 && Added(c, ops[0], d)
    ensures AcceptableAt(c, ops, i + 1) <==> AcceptableAt(d, ops[1..], i)
    ensures forall error :: RefusedAt(d, ops[1..], i, error) ==> RefusedAt(c, ops, i + 1, error)
  {
    hide Added, NodeBy, RelBy;
    var op := ops[i + 1];
    assert ops[1..][i] == op;
    AfterFirst(c, ops, d, i, NameOf(op));
    if op.RegisterRel? {
      AfterFirst(c, ops, d, i, op.rel.from);
      AfterFirst(c, ops, d, i, op.rel.to);
    }
  }

  lemma FirstOfBatch(c: Catalog, ops: seq<Op>)
    requires ops != []
    ensures AcceptableAt(c, ops, 0) <==> Acceptable(c, ops[0])
    ensures forall error :: RefusedAt(c, ops, 0, error) <==> Refused(c, ops[0], error)
  {
  }

  /** The first n definitions of a batch are acceptable, each after those before it. */
  ghost predicate AcceptableTo(c: Catalog, ops: seq<Op>, n: nat)
    requires n <= |ops|
  {
    forall i :: 0 <= i < n ==> AcceptableAt(c, ops, i)
  }

  /** Definition i is the first that is refused, for this reason. */
  ghost predicate FailsAt(c: Catalog, ops: seq<Op>, i: nat, error: SchemaError)
  {
    i < |ops| && RefusedAt(c, ops, i, error) && AcceptableTo(c, ops, i)
  }

  lemma AllFromRest(c: Catalog, ops: seq<Op>, d: Catalog, n: nat)
    requires ops != [] && n <= |ops| - 1 && Added(c, ops[0], d)
    ensures AcceptableTo(c, ops, n + 1) <==> Acceptable(c, ops[0]) && AcceptableTo(d, ops[1..], n)
  {
    FirstOfBatch(c, ops);
    hide AcceptableAt, Added, Acceptable;
    forall i | 0 <= i < n
      ensures AcceptableAt(c, ops, i + 1) <==> AcceptableAt(d, ops[1..], i)
    {
      RestAcceptable(c, ops, d, i);
    }
    if AcceptableAt(c, ops, 0) && AcceptableTo(d, ops[1..], n) {
      forall i | 0 <= i < n + 1
        ensures AcceptableAt(c, ops, i)
      {
        if i > 0 {
          assert AcceptableAt(d, ops[1..], i - 1);
          RestAcceptable(c, ops, d, i - 1);
        }
      }
    }
  }

  /** A batch's definitions succeed exactly when each is acceptable after those before it; the first that is not says why. */
  lemma {:induction false} DefineAllExactly(c: Catalog, ops: seq<Op>)
    ensures DefineAll(c, ops).Success? <==> AcceptableTo(c, ops, |ops|)
    ensures DefineAll(c, ops).Success? ==> AddedAll(c, ops, DefineAll(c, ops).value)
    ensures DefineAll(c, ops).Failure? ==> exists i :: FailsAt(c, ops, i, DefineAll(c, ops).error)
    decreases |ops|
  {
    if ops == [] {
      NothingAdded(c);
    } else {
      DefineExactly(c, ops[0]);
      FirstOfBatch(c, ops);
      hide Define, Acceptable, Refused, AcceptableAt, RefusedAt, AddedAll, Added;
      if Define(c, ops[0]).Success? {
        var d, rest := Define(c, ops[0]).value, ops[1..];
        DefineAllExactly(d, rest);
        AllFromRest(c, ops, d, |rest|);
        hide AcceptableTo;
        if DefineAll(d, rest).Success? {
          AddedFromRest(c, ops, d, DefineAll(d, rest).value);
        } else {
          var i :| FailsAt(d, rest, i, DefineAll(d, rest).error);
          FailsFromRest(c, ops, d, i, DefineAll(d, rest).error);
        }
      } else {
        assert FailsAt(c, ops, 0, Define(c, ops[0]).error);
      }
    }
  }

  lemma FailsFromRest(c: Catalog, ops: seq<Op>, d: Catalog, i: nat, error: SchemaError)
    requires ops != [] && Acceptable(c, ops[0]) && Added(c, ops[0], d) && FailsAt(d, ops[1..], i, error)
    ensures FailsAt(c, ops, i + 1, error)
  {
    RestAcceptable(c, ops, d, i);
    AllFromRest(c, ops, d, i);
    hide Acceptable, Added, AcceptableTo, RefusedAt;
  }

  lemma NothingAdded(c: Catalog)
    ensures AddedAll(c, [], c)
  {
  }

  lemma AddedFromRest(c: Catalog, ops: seq<Op>, d: Catalog, all: Catalog)
    requires ops != [] && Added(c, ops[0], d) && AddedAll(d, ops[1..], all)
    requires Acceptable(c, ops[0])
    ensures AddedAll(c, ops, all)
  {
    forall name: string
      ensures NodeBy(c, ops, |ops|, name) <==> NodeBy(d, ops[1..], |ops| - 1, name)
      ensures RelBy(c, ops, |ops|, name) <==> RelBy(d, ops[1..], |ops| - 1, name)
    {
      AfterFirst(c, ops, d, |ops| - 1, name);
    }
    hide NodeBy, RelBy;
    assert ops == [ops[0]] + ops[1..];
  }

  // ------------------------------------------------------------- definitions

  lemma DefineGrows(c: Catalog, op: Op)
    requires Define(c, op).Success?
    ensures Includes(Define(c, op).value, c) && Present(Define(c, op).value, op)
    ensures KindsDisjoint(c) ==> KindsDisjoint(Define(c, op).value)
    ensures EndpointsDefined(c) ==> EndpointsDefined(Define(c, op).value)
  {
  }

  lemma {:induction false} DefineAllGrows(c: Catalog, ops: seq<Op>)
    requires DefineAll(c, ops).Success?
    ensures Includes(DefineAll(c, ops).value, c) && AllPresent(DefineAll(c, ops).value, ops)
    ensures KindsDisjoint(c) ==> KindsDisjoint(DefineAll(c, ops).value)
    ensures EndpointsDefined(c) ==> EndpointsDefined(DefineAll(c, ops).value)
    decreases |ops|
  {
    if ops != [] {
      DefineGrows(c, ops[0]);
      DefineAllGrows(Define(c, ops[0]).value, ops[1..]);
      assert ops == [ops[0]] + ops[1..];
    }
  }

  // ------------------------------------------------------------------ replay

  lemma ReplaySnoc(c: Catalog, log: seq<Op>, op: Op)
    ensures Replay(c, log + [op])
            == if Replay(c, log).Failure? then Replay(c, log) else ReplayEntry(Replay(c, log).value, op)
  {
    assert (log + [op])[..|log|] == log;
  }

  /** A strict definition replays to the same catalog. */
  lemma ReplayOfDefine(c: Catalog, op: Op)
    requires Define(c, op).Success?
    ensures ReplayEntry(c, op) == Define(c, op)
  {
  }

  /** Logging a batch record by record replays to the catalog the batch installed. */
  lemma {:induction false} ReplayOfBatch(base: Catalog, log: seq<Op>, ops: seq<Op>)
    requires Replay(base, log).Success? && DefineAll(Replay(base, log).value, ops).Success?
    ensures Replay(base, log + ops) == DefineAll(Replay(base, log).value, ops)
    decreases |ops|
  {
    if ops == [] {
      assert log + ops == log;
    } else {
      var c := Replay(base, log).value;
      ReplaySnoc(base, log, ops[0]);
      ReplayOfDefine(c, ops[0]);
      ReplayOfBatch(base, log + [ops[0]], ops[1..]);
      assert log + [ops[0]] + ops[1..] == log + ops;
    }
  }

  /** Replay stops at the first record that fails. */
  lemma {:induction false} FailedPrefix(base: Catalog, log: seq<Op>, i: nat)
    requires i <= |log| && Replay(base, log[..i]).Failure?
    ensures Replay(base, log) == Replay(base, log[..i])
    decreases |log| - i
  {
    if i == |log| {
      assert log[..i] == log;
    } else {
      assert log[..i + 1] == log[..i] + [log[i]];
      ReplaySnoc(base, log[..i], log[i]);
      FailedPrefix(base, log, i + 1);
    }
  }

  /** Replaying what the live catalog holds never fails and never goes beyond it. */
  lemma ReplayEntryWithin(c: Catalog, live: Catalog, op: Op)
    requires Includes(live, c) && KindsDisjoint(live) && Present(live, op)
    ensures ReplayEntry(c, op).Success?
    ensures Includes(live, ReplayEntry(c, op).value) && Includes(ReplayEntry(c, op).value, c)
    ensures Present(ReplayEntry(c, op).value, op)
  {
  }

  /** A record is skipped if a model of its kind and name is there, refused if one of the other kind is, and applied otherwise. */
  lemma ReplayEntryExactly(c: Catalog, op: Op)
    ensures ReplayEntry(c, op).Failure? <==> match op { case RegisterNode(m) => m.name !in c.nodes && m.name in c.rels
                                                       case RegisterRel(m) => m.name !in c.rels && m.name in c.nodes }
    ensures ReplayEntry(c, op).Success? ==>
              var known := match op { case RegisterNode(m) => m.name in c.nodes case RegisterRel(m) => m.name in c.rels };
              if known then ReplayEntry(c, op).value == c else Added(c, op, ReplayEntry(c, op).value)
  {
  }

  lemma ReplayEntryNoop(c: Catalog, op: Op)
    requires Present(c, op)
    ensures ReplayEntry(c, op) == Success(c)
  {
  }

  /** A log whose definitions the base already holds changes nothing: a crash between the two halves of a checkpoint is harmless. */
  lemma {:induction false} ReplayOverNewBase(base: Catalog, log: seq<Op>)
    requires AllPresent(base, log)
    ensures Replay(base, log) == Success(base)
  {
    if log != [] {
      ReplayOverNewBase(base, log[..|log| - 1]);
      ReplayEntryNoop(base, log[|log| - 1]);
    }
  }

  lemma {:induction false} ReplayGrows(base: Catalog, log: seq<Op>)
    requires Replay(base, log).Success?
    ensures Includes(Replay(base, log).value, base)
  {
    if log != [] {
      ReplayGrows(base, log[..|log| - 1]);
    }
  }

  /** Replaying records of definitions the live catalog holds recovers all of them and nothing beyond it. */
  lemma {:induction false} ReplayWithin(base: Catalog, live: Catalog, log: seq<Op>)
    requires Includes(live, base) && KindsDisjoint(live) && AllPresent(live, log)
    ensures Replay(base, log).Success?
    ensures Includes(live, Replay(base, log).value) && AllPresent(Replay(base, log).value, log)
  {
    if log != [] {
      var init, last := log[..|log| - 1], log[|log| - 1];
      ReplayWithin(base, live, init);
      var before := Replay(base, init).value;
      ReplayEntryWithin(before, live, last);
      assert log == init + [last];
    }
  }

  /** A batch that succeeds defines distinct names, none of them taken. */
  lemma {:induction false} DefineAllFresh(c: Catalog, ops: seq<Op>)
    requires DefineAll(c, ops).Success?
    ensures DistinctNames(ops) && forall op :: op in ops ==> !HasName(c, NameOf(op))
    decreases |ops|
  {
    if ops != [] {
      var next := Define(c, ops[0]).value;
      DefineAllFresh(next, ops[1..]);
      assert ops == [ops[0]] + ops[1..];
      assert HasName(next, NameOf(ops[0]));
      forall i, j | 0 <= i < j < |ops|
        ensures NameOf(ops[i]) != NameOf(ops[j])
      {
        if i == 0 {
          assert ops[j] in ops[1..];
        } else {
          assert ops[1..][i - 1] == ops[i] && ops[1..][j - 1] == ops[j];
        }
      }
    }
  }

  /** A record brings in no name but its own. */
  lemma ReplayEntryNames(c: Catalog, op: Op, name: string)
    requires ReplayEntry(c, op).Success?
    ensures HasName(ReplayEntry(c, op).value, name) <==> HasName(c, name) || name == NameOf(op)
  {
  }

  lemma PresentHasName(c: Catalog, op: Op)
    requires Present(c, op)
    ensures HasName(c, NameOf(op))
  {
  }

  /** An edge record keeps all endpoints defined exactly when both its own are, or when it is there already. */
  lemma EdgeRecordExactly(c: Catalog, e: RelModel)
    requires EndpointsDefined(c) && ReplayEntry(c, RegisterRel(e)).Success?
    ensures EndpointsDefined(ReplayEntry(c, RegisterRel(e)).value) <==> e.name in c.rels || (e.from in c.nodes && e.to in c.nodes)
  {
    var d := ReplayEntry(c, RegisterRel(e)).value;
    if e.name !in c.rels {
      assert d.rels[e.name] == e && d.nodes == c.nodes;
    }
  }

  /** The first k records replay to a catalog whose edge models have their endpoints. */
  ghost predicate WholeAt(base: Catalog, ops: seq<Op>, k: nat)
    requires k <= |ops|
  {
    Replay(base, ops[..k]).Success? && EndpointsDefined(Replay(base, ops[..k]).value)
  }

  /** Record k, if an edge model's, finds its endpoints, or itself, in what the records before it replay to. */
  predicate EndsFound(base: Catalog, ops: seq<Op>, k: nat)
    requires k < |ops|
  {
    ops[k].RegisterRel? ==>
      var c, e := Replay(base, ops[..k]), ops[k].rel;
      c.Success? && (e.name in c.value.rels || (e.from in c.value.nodes && e.to in c.value.nodes))
  }

  lemma WholeNext(base: Catalog, ops: seq<Op>, k: nat)
    requires k < |ops| && WholeAt(base, ops, k) && Replay(base, ops[..k + 1]).Success?
    ensures WholeAt(base, ops, k + 1) <==> EndsFound(base, ops, k)
  {
    assert ops[..k + 1] == ops[..k] + [ops[k]];
    ReplaySnoc(base, ops[..k], ops[k]);
    hide Replay;
    if ops[k].RegisterRel? {
      hide EndpointsDefined, ReplayEntry;
      EdgeRecordExactly(Replay(base, ops[..k]).value, ops[k].rel);
    }
  }

  /** A log can be cut after any record exactly when the base is whole and every edge record finds its endpoints. */
  lemma {:induction false} PrefixesWholeExactly(base: Catalog, ops: seq<Op>, n: nat)
    requires n <= |ops| && Replay(base, ops).Success?
    ensures (forall k :: 0 <= k <= n ==> WholeAt(base, ops, k))
            <==> EndpointsDefined(base) && forall k :: 0 <= k < n ==> EndsFound(base, ops, k)
  {
    hide EndpointsDefined, WholeAt, EndsFound, Replay;
    if n == 0 {
      WholeAtStart(base, ops);
    } else {
      PrefixesWholeExactly(base, ops, n - 1);
      if Replay(base, ops[..n]).Failure? {
        FailedPrefix(base, ops, n);
      }
      if WholeAt(base, ops, n - 1) {
        WholeNext(base, ops, n - 1);
      }
    }
  }

  lemma WholeAtStart(base: Catalog, ops: seq<Op>)
    ensures WholeAt(base, ops, 0) <==> EndpointsDefined(base)
  {
    assert ops[..0] == [];
  }
}
