/** The consent machine and the scheduler together: what /consent decided, and when the worker serves it. */
module ConsentedService {
  import opened Integers
  import opened RequestQueue
  import S = Scheduler
  import C = CommonsReview

  // The requests that arrive, in order.
  function Arrived(ops: seq<S.Op>): seq<Request> {
    if ops == [] then []
    else
      var last := ops[|ops| - 1];
      Arrived(ops[..|ops| - 1]) + if last.Arrive? then [last.request] else []
  }

  function Requests(log: seq<C.Entry>): (rs: seq<Request>)
    ensures |rs| == |log|
  {
    seq(|log|, i requires 0 <= i < |log| => log[i].request)
  }

  // The scheduler sees exactly the calls of Enqueue, with services of the worker at any time.
  ghost predicate Feeds(actions: seq<C.Action>, ops: seq<S.Op>) {
    Arrived(ops) == Requests(C.Run(C.INITIAL, actions).enqueued)
  }

  lemma ArrivedLast(ops: seq<S.Op>, op: S.Op)
    ensures Arrived(ops + [op]) == Arrived(ops) + if op.Arrive? then [op.request] else []
  {
    assert (ops + [op])[..|ops|] == ops;
  }

  lemma {:induction false} ArrivedAppend(ops: seq<S.Op>, more: seq<S.Op>)
    ensures Arrived(ops + more) == Arrived(ops) + Arrived(more)
    decreases |more|
  {
    if more == [] {
      assert ops + more == ops;
    } else {
      var init, op := more[..|more| - 1], more[|more| - 1];
      ArrivedAppend(ops, init);
      ArrivedLast(ops + init, op);
      ArrivedLast(init, op);
      assert ops + init + [op] == ops + more && init + [op] == more;
    }
  }

  lemma {:induction false} ArrivedCount(ops: seq<S.Op>)
    ensures |Arrived(ops)| == S.Arrivals(ops)
    decreases |ops|
  {
    if ops != [] {
      ArrivedCount(ops[..|ops| - 1]);
    }
  }

  lemma {:induction false} ArrivalIsListed(ops: seq<S.Op>, i: nat)
    requires i < |ops| && ops[i].Arrive?
    ensures ops[i].request in Arrived(ops)
    decreases |ops|
  {
    if i < |ops| - 1 {
      ArrivalIsListed(ops[..|ops| - 1], i);
    }
  }

  // Every request that reaches the scheduler is of one of the two classes.
  lemma FedTwoClasses(actions: seq<C.Action>, ops: seq<S.Op>)
    requires C.AllowedRun(actions) && Feeds(actions, ops)
    ensures S.TwoClasses(ops)
  {
    forall i | 0 <= i < |ops| && ops[i].Arrive? ensures ops[i].request.priority in {S.COMMUNITY, S.PERSONAL} {
      ArrivalIsListed(ops, i);
      var log := C.Run(C.INITIAL, actions).enqueued;
      var k :| 0 <= k < |log| && log[k].request == ops[i].request;
      C.ConsentGate(actions, k);
      OneOfTwo(actions, k);
    }
  }

  lemma OneOfTwo(actions: seq<C.Action>, k: nat)
    requires C.AllowedRun(actions) && k < |C.Run(C.INITIAL, actions).enqueued|
    ensures C.Run(C.INITIAL, actions).enqueued[k].request.priority in {S.COMMUNITY, S.PERSONAL}
  {
    C.InvRun(actions);
    var s := C.Run(C.INITIAL, actions);
    assert C.Justified(s.created, s.taken, s.enqueued[k]);
  }

  // A request released by a consent stands where its answer puts it: raised, it is served after exactly the
  // community requests it finds, whatever comes later; not raised, after all it finds and the later community ones.
  lemma ConsentedIsServed(actions: seq<C.Action>, before: seq<S.Op>, request: Request, after: seq<S.Op>, k: nat,
                          id: string, n: nat, upgrade: bool)
    requires C.AllowedRun(actions) && Feeds(actions, before + [S.Arrive(request)] + after)
    requires S.Counted(S.INITIAL, before + [S.Arrive(request)] + after)
    requires k == |Arrived(before)| && k < |C.Run(C.INITIAL, actions).enqueued|
    requires C.Run(C.INITIAL, actions).enqueued[k].cause == C.Consent(id) && C.Took(actions, n, id, upgrade)
    ensures request.priority == if upgrade then 1 else 2
    ensures var s := S.Run(S.INITIAL, before);
      S.InPlace(S.Run(S.Step(s, S.Arrive(request)), after), request.(seqNo := k + 1), s.waiting, after)
  {
    FedTwoClasses(actions, before + [S.Arrive(request)] + after);
    FedEntry(actions, before, request, after);
    C.ConsentGate(actions, k);
    ServedInRun(before, request, after, S.Run(S.INITIAL, before));
  }

  // The entry of the log behind an arrival.
  lemma FedEntry(actions: seq<C.Action>, before: seq<S.Op>, request: Request, after: seq<S.Op>)
    requires Feeds(actions, before + [S.Arrive(request)] + after)
    ensures var log := C.Run(C.INITIAL, actions).enqueued;
      |Arrived(before)| < |log| && log[|Arrived(before)|].request == request
  {
    ArrivedLast(before, S.Arrive(request));
    ArrivedAppend(before + [S.Arrive(request)], after);
    var i, log := |Arrived(before)|, C.Run(C.INITIAL, actions).enqueued;
    assert Arrived(before + [S.Arrive(request)] + after)[i] == request;
    assert Requests(log)[i] == log[i].request;
  }

  lemma ClassesOfParts(before: seq<S.Op>, request: Request, after: seq<S.Op>)
    requires S.TwoClasses(before + [S.Arrive(request)] + after)
    ensures S.TwoClasses(before) && S.TwoClasses(after) && request.priority in {S.COMMUNITY, S.PERSONAL}
  {
    var ops := before + [S.Arrive(request)] + after;
    assert ops[|before|] == S.Arrive(request);
    forall i | 0 <= i < |before| && before[i].Arrive? ensures before[i].request.priority in {S.COMMUNITY, S.PERSONAL} {
      assert ops[i] == before[i];
    }
    forall i | 0 <= i < |after| && after[i].Arrive? ensures after[i].request.priority in {S.COMMUNITY, S.PERSONAL} {
      assert ops[|before| + 1 + i] == after[i];
    }
  }

  lemma CountOfParts(before: seq<S.Op>, request: Request, after: seq<S.Op>)
    ensures S.Arrivals(before + [S.Arrive(request)] + after) == S.Arrivals(before) + 1 + S.Arrivals(after)
  {
    ArrivedLast(before, S.Arrive(request));
    ArrivedAppend(before + [S.Arrive(request)], after);
    ArrivedCount(before);
    ArrivedCount(after);
    ArrivedCount(before + [S.Arrive(request)] + after);
  }

  // The run before the arrival leaves the scheduler fit for the rest.
  lemma FitAfter(before: seq<S.Op>, request: Request, after: seq<S.Op>, s: S.State)
    requires S.TwoClasses(before + [S.Arrive(request)] + after)
    requires S.Counted(S.INITIAL, before + [S.Arrive(request)] + after) && s == S.Run(S.INITIAL, before)
    ensures S.Stamped(s) && S.Regular(s, S.Arrive(request)) && s.seqNext == |Arrived(before)|
    ensures S.TwoClasses(after) && s.seqNext + 1 + S.Arrivals(after) <= MAX_INT64
  {
    ClassesOfParts(before, request, after);
    CountOfParts(before, request, after);
    ArrivedCount(before);
    S.StampedRun(S.INITIAL, before);
  }

  lemma ServedInRun(before: seq<S.Op>, request: Request, after: seq<S.Op>, s: S.State)
    requires S.TwoClasses(before + [S.Arrive(request)] + after)
    requires S.Counted(S.INITIAL, before + [S.Arrive(request)] + after) && s == S.Run(S.INITIAL, before)
    ensures S.InPlace(S.Run(S.Step(s, S.Arrive(request)), after), request.(seqNo := |Arrived(before)| + 1), s.waiting,
                      after)
  {
    FitAfter(before, request, after, s);
    S.StampedStep(s, S.Arrive(request));
    S.PositionOnArrival(s, request, after);
  }
}
