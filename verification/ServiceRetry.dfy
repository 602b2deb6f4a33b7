/**
 The reopen-and-retry client of grm-mcp/src/service.rs against a workspace service that may
 forget handles, drop requests and lose replies at any point, while other clients use it. A
 request is applied when the runtime behind the service takes it up, and carried out whole
 unless the runtime fails part-way.
 */
module ServiceRetry {
  import opened Prelude

  datatype Code = NotFound | InvalidArgument | Unimplemented | AlreadyExists | Unavailable

  datatype Status = Status(code: Code, message: string)

  /** A request; the id tells calls apart. */
  datatype Request = Request(id: nat)

  /** What the runtime did for a request: all of it, or some of it before failing. */
  datatype Work = Work(request: Request, whole: bool)

  /** What the runtime answers a request over a handle with. */
  datatype Response = Response(handle: string, request: Request)

  datatype ClientError = ServiceStatus(status: Status) | MissingField(field: string)

  function UnknownHandle(id: string): Status
  {
    Status(NotFound, "unknown workspace handle '" + id + "'")
  }

  /** What a reopening that gave no handle is reported as. */
  function ReopenError(answer: Result<Option<string>, Status>): ClientError
  {
    if answer.Failure? then ServiceStatus(answer.error) else MissingField("WorkspaceOpenResponse.handle")
  }

  /** The refusal names the handle it refuses, so it cannot be taken for a refusal of another. */
  lemma UnknownHandleNames(a: string, b: string)
    ensures UnknownHandle(a) == UnknownHandle(b) <==> a == b
  {
    var prefix := "unknown workspace handle '";
    if UnknownHandle(a) == UnknownHandle(b) {
      Assoc3(prefix, a, "'");
      Assoc3(prefix, b, "'");
      DropPrefix(prefix, a + "'");
      DropPrefix(prefix, b + "'");
      assert (a + "'")[..|a|] == a && (b + "'")[..|b|] == b;
    }
  }

  /** The far side: live handles, all handles ever issued, and the work done, in order. */
  class WorkspaceService {
    var live: set<string>
    var issued: set<string>
    var applied: seq<Work>

    ghost predicate Valid()
      reads this
    {
      live <= issued
    }

    /** A service with no handle issued yet. */
    constructor ()
      ensures Valid() && live == {} && issued == {} && applied == []
    {
      live, issued, applied := {}, {}, [];
    }

    /**
     Anything other clients do meanwhile: they open handles and have requests of their own
     applied, none of them `ours`; if `faulty`, handles are forgotten too. The service does not
     issue them `reserved`.
     */
    method OthersAct(ours: set<Request>, faulty: bool, reserved: string)
      requires Valid()
      modifies this
      ensures Valid() && old(issued) <= issued && (reserved in issued ==> reserved in old(issued))
      ensures OnlyOthers(ours, old(applied), applied)
      ensures !faulty ==> old(live) <= live
    {
      var kept: set<string>, more: set<string>, works: seq<Work> := *, *, *;
      if faulty {
        live := live * kept;
      }
      more := more - issued - {reserved};
      live, issued := live + more, issued + more;
      if forall x :: x in works ==> x.request !in ours {
        OthersCount(ours, applied, works);
        applied := applied + works;
      }
    }

    /**
     `execute_workspace`. The handle is looked up before the runtime sees the request, and a
     runtime failure is never reported as not found. `faulty` lets the network and the service
     misbehave.
     */
    method ExecuteWorkspace(handle: string, request: Request, faulty: bool)
      returns (r: Result<Response, Status>)
      requires Valid()
      modifies this`live, this`applied
      ensures Valid() && live <= old(live)
      ensures applied == old(applied) || applied == old(applied) + [Work(request, true)] || applied == old(applied) + [Work(request, false)]
      ensures r.Success? ==> applied == old(applied) + [Work(request, true)] && r.value == Response(handle, request)
      ensures r.Failure? && r.error.code == NotFound ==> r.error == UnknownHandle(handle) && applied == old(applied)
      ensures !faulty ==> live == old(live)
      ensures !faulty ==> (r == Failure(UnknownHandle(handle)) <==> handle !in old(live))
      ensures !faulty ==> r.Success? || r.error.code != Unavailable
    {
      if faulty {
        var kept: set<string> := *;
        live := live * kept;
        var dropped: bool := *;
        if dropped {
          return Failure(Status(Unavailable, "transport"));
        }
      }
      if handle !in live {
        r := Failure(UnknownHandle(handle));
      } else {
        var fails: bool, started: bool, code: Code := *, *, *;
        if !fails {
          applied := applied + [Work(request, true)];
          r := Success(Response(handle, request));
        } else {
          // a runtime error may come after some of the work was done
          if started {
            applied := applied + [Work(request, false)];
          }
          r := Failure(Status(if code.Unimplemented? then Unimplemented else InvalidArgument, "runtime"));
        }
      }
      if faulty {
        var lost: bool := *;
        if lost {
          r := Failure(Status(Unavailable, "transport"));
        }
      }
    }

    /** `open_workspace`: a handle never issued before, unless it fails, is lost, or comes back without one. */
    method OpenWorkspace(faulty: bool, nextHandle: string) returns (r: Result<Option<string>, Status>)
      requires Valid() && nextHandle !in issued
      modifies this`live, this`issued
      ensures Valid() && old(issued) <= issued
      ensures r.Success? && r.value.Some? ==> r.value.value == nextHandle && nextHandle in live
      ensures !faulty ==> r.Success? && r.value.Some? && live == old(live) + {r.value.value}
    {
      if faulty {
        var fails: bool := *;
        if fails {
          return Failure(Status(Unavailable, "transport"));
        }
      }
      live, issued := live + {nextHandle}, issued + {nextHandle};
      r := Success(Some(nextHandle));
      if faulty {
        var lost: bool, empty: bool := *, *;
        if lost {
          r := Failure(Status(Unavailable, "transport"));
        } else if empty {
          r := Success(None);
        }
      }
    }
  }

  /** One attempt of a call: the handle it used, whether the service applied it, and the answer. */
  datatype Try = Try(handle: string, applied: bool, answer: Result<Response, Status>)

  class ServiceBackend {
    const service: WorkspaceService
    var handle: string
    var connected: bool
    ghost var attempts: seq<Try>   // of the latest call

    constructor (service: WorkspaceService, handle: string)
      ensures this.service == service && this.handle == handle && connected
    {
      this.service, this.handle, connected, attempts := service, handle, true, [];
    }

    /** One attempt, recorded. */
    method Send(request: Request, faulty: bool) returns (r: Result<Response, Status>)
      requires service.Valid()
      modifies this`attempts, service`live, service`applied
      ensures service.Valid() && service.live <= old(service.live)
      ensures |attempts| == |old(attempts)| + 1 && attempts[..|old(attempts)|] == old(attempts)
      ensures var a := attempts[|old(attempts)|];
              && a.handle == handle && a.answer == r
              && (!a.applied ==> service.applied == old(service.applied))
      ensures service.applied == old(service.applied) || exists whole :: service.applied == old(service.applied) + [Work(request, whole)]
      ensures r.Success? ==> service.applied == old(service.applied) + [Work(request, true)] && r.value == Response(handle, request)
      ensures r == Failure(UnknownHandle(handle)) ==> service.applied == old(service.applied) && !attempts[|old(attempts)|].applied
      ensures !faulty ==> service.live == old(service.live)
      ensures !faulty ==> (r == Failure(UnknownHandle(handle)) <==> handle !in old(service.live))
      ensures !faulty ==> r.Success? || r.error.code != Unavailable
    {
      ghost var before := service.applied;
      r := service.ExecuteWorkspace(handle, request, faulty);
      attempts := attempts + [Try(handle, service.applied != before, r)];
    }

    /** Between the two attempts: anything by others, the handle reopened, and anything by others again. */
    method Reopen(ours: set<Request>, faulty: bool, nextHandle: string)
      returns (r: Result<string, ClientError>, ghost answer: Result<Option<string>, Status>)
      requires service.Valid() && nextHandle !in service.issued
      modifies service
      ensures service.Valid()
      ensures OnlyOthers(ours, old(service.applied), service.applied)
      ensures r.Success? ==> r.value == nextHandle && answer == Success(Some(nextHandle))
      ensures r.Failure? ==> r.error == ReopenError(answer) && (answer.Success? ==> answer.value.None?)
      ensures !faulty ==> r.Success? && nextHandle in service.live
    {
      service.OthersAct(ours, faulty, nextHandle);
      var reopened := service.OpenWorkspace(faulty, nextHandle);
      answer := reopened;
      if reopened.Failure? {
        return Failure(ServiceStatus(reopened.error)), answer;
      }
      if reopened.value.None? {
        return Failure(MissingField("WorkspaceOpenResponse.handle")), answer;
      }
      service.OthersAct(ours, faulty, nextHandle);
      r := Success(reopened.value.value);
    }

    /**
     `execute`: send; if the service does not know the handle, reopen and send once more.
     `nextHandle` is the handle the service will issue if asked to; `ours` are the requests of
     this client, whose calls its connection lock keeps apart.
     */
    method Execute(ours: set<Request>, request: Request, faulty: bool, nextHandle: string)
      returns (r: Result<Response, ClientError>, ghost reopening: Option<Result<Option<string>, Status>>)
      requires service.Valid() && nextHandle !in service.issued && request in ours
      modifies this, service
      ensures service.Valid()
      // applied at most once, carried out whole if the call says Ok, and no other request of ours touched
      ensures Effect(ours, old(service.applied), Call(request, r.Success?), service.applied)
      ensures connected <==> r.Success?
      // the caller gets the answer to its own request, over the handle now held
      ensures r.Success? ==> r.value == Response(handle, request)
      // and otherwise the error of the last attempt, unless that led to a reopening that failed
      ensures |attempts| >= 1
      ensures var last := attempts[|attempts| - 1].answer;
              if reopening.None? || |attempts| == 2
              then (r.Success? <==> last.Success?) && (r.Success? ==> r.value == last.value)
                   && (r.Failure? ==> r.error == ServiceStatus(last.error))
              else r == Failure(ReopenError(reopening.value))
      ensures reopening.Some? <==> attempts[0].answer == Failure(UnknownHandle(old(handle)))
      ensures |attempts| == 2 <==> reopening.Some? && reopening.value.Success? && reopening.value.value.Some?
      // a second attempt follows only a first that met an unknown handle and applied nothing
      ensures 1 <= |attempts| <= 2 && attempts[0].handle == old(handle)
      ensures |attempts| == 2 ==> !attempts[0].applied && attempts[0].answer == Failure(UnknownHandle(old(handle)))
      ensures |attempts| == 2 ==> attempts[1].handle == handle && handle !in old(service.issued)
      ensures |attempts| == 1 ==> handle == old(handle)
      // no further fault: the one call recovers, or the runtime itself refuses the request
      ensures !faulty ==> handle in service.live && (r.Failure? ==> r.error.ServiceStatus? && r.error.status.code != Unavailable)
      ensures !faulty ==> (|attempts| == 2 <==> old(handle) !in old(service.live))
      ensures !faulty ==> attempts[|attempts| - 1].answer != Failure(UnknownHandle(handle))
    {
      hide Count;
      attempts, reopening := [], None;
      ghost var start := service.applied;
      var result := Send(request, faulty);
      OneWork(ours, request, start, service.applied, result.Success?);
      if result.Failure? && result.error.code == NotFound && result.error.message == UnknownHandle(handle).message {
        connected := false;
        ghost var opening;
        var reopened;
        reopened, opening := Reopen(ours, faulty, nextHandle);
        reopening := Some(opening);
        if reopened.Failure? {
          return Failure(reopened.error), reopening;
        }
        handle := reopened.value;
        ghost var again := service.applied;
        result := Send(request, faulty);
        OneWork(ours, request, again, service.applied, result.Success?);
      }
      connected := result.Success?;
      r := if result.Success? then Success(result.value) else Failure(ServiceStatus(result.error));
    }
  }

  // ------------------------------------------------------------------ counting

  /** How often the service did this. */
  function Count(w: Work, s: seq<Work>): nat
  {
    multiset(s)[w]
  }

  function Finished(q: Request, s: seq<Work>): nat
  {
    Count(Work(q, true), s)
  }

  /** How often the request was taken up, carried out whole or not. */
  function Started(q: Request, s: seq<Work>): nat
  {
    Finished(q, s) + Count(Work(q, false), s)
  }

  ghost predicate Untouched(q: Request, before: seq<Work>, after: seq<Work>)
  {
    Started(q, after) == Started(q, before) && Finished(q, after) == Finished(q, before)
  }

  /** None of our requests was applied. */
  ghost predicate OnlyOthers(ours: set<Request>, before: seq<Work>, after: seq<Work>)
  {
    forall q :: q in ours ==> Untouched(q, before, after)
  }

  lemma CountAppend(w: Work, a: seq<Work>, b: seq<Work>)
    ensures Count(w, a + b) == Count(w, a) + Count(w, b)
    ensures w !in b ==> Count(w, b) == 0
    ensures |b| == 1 ==> Count(w, b) == if b[0] == w then 1 else 0
  {
    assert multiset(a + b) == multiset(a) + multiset(b);
    assert |b| == 1 ==> b == [b[0]];
  }

  lemma OthersCount(ours: set<Request>, before: seq<Work>, works: seq<Work>)
    requires forall x :: x in works ==> x.request !in ours
    ensures OnlyOthers(ours, before, before + works)
  {
    hide Count;
    forall q | q in ours
      ensures Untouched(q, before, before + works)
    {
      CountAppend(Work(q, true), before, works);
      CountAppend(Work(q, false), before, works);
    }
  }

  /** One attempt has the effect of a call. */
  lemma OneWork(ours: set<Request>, request: Request, before: seq<Work>, after: seq<Work>, ok: bool)
    requires request in ours
    requires (!ok && after == before) || exists whole :: after == before + [Work(request, whole)] && (ok ==> whole)
    ensures Effect(ours, before, Call(request, ok), after)
  {
    hide Count;
    if after != before {
      var whole :| after == before + [Work(request, whole)] && (ok ==> whole);
      forall q, part
        ensures Count(Work(q, part), after) == Count(Work(q, part), before) + if q == request && part == whole then 1 else 0
      {
        CountAppend(Work(q, part), before, [Work(request, whole)]);
      }
    }
  }

  // ------------------------------------------------------- runs of many calls

  /** What a run does to the work done: one of our calls, or anything others do. */
  datatype Event = Call(request: Request, ok: bool) | Others

  /** A call as `Execute` promises it; others never send our requests. */
  ghost predicate Effect(ours: set<Request>, before: seq<Work>, e: Event, after: seq<Work>)
  {
    match e
    case Call(request, ok) =>
      && request in ours && OnlyOthers(ours - {request}, before, after)
      && Started(request, before) <= Started(request, after) <= Started(request, before) + 1
      && Finished(request, before) + (if ok then 1 else 0) <= Finished(request, after)
    case Others => OnlyOthers(ours, before, after)
  }

  ghost predicate IsRun(ours: set<Request>, states: seq<seq<Work>>, events: seq<Event>)
  {
    && |states| == |events| + 1 && states[0] == []
    && forall i :: 0 <= i < |events| ==> Effect(ours, states[i], events[i], states[i + 1])
  }

  /** How many of the first `n` events are calls with `request`, of those that returned Ok or of all. */
  function Calls(request: Request, events: seq<Event>, n: nat, okOnly: bool): nat
    requires n <= |events|
  {
    if n == 0 then 0
    else
      Calls(request, events, n - 1, okOnly)
      + (if events[n - 1].Call? && events[n - 1].request == request && (events[n - 1].ok || !okOnly) then 1 else 0)
  }

  /**
   Over any run of calls among other clients a request is carried out whole at least as often as
   it was acknowledged, and taken up at all at most as often as it was sent.
   */
  lemma {:induction false} AppliedBetween(ours: set<Request>, states: seq<seq<Work>>, events: seq<Event>, request: Request, n: nat)
    requires IsRun(ours, states, events) && request in ours && n <= |events|
    ensures Calls(request, events, n, true) <= Finished(request, states[n])
    ensures Started(request, states[n]) <= Calls(request, events, n, false)
  {
    if n == 0 {
      assert states[0] == [];
    } else {
      hide Started, Finished;
      AppliedBetween(ours, states, events, request, n - 1);
      assert Effect(ours, states[n - 1], events[n - 1], states[n]);
      match events[n - 1] {
        case Call(q, ok) =>
          if q != request {
            assert Untouched(request, states[n - 1], states[n]);
          }
        case Others => assert Untouched(request, states[n - 1], states[n]);
      }
    }
  }
}
