/** The scheduler of daemon/scheduler.go: one queue, requests stamped as they arrive, one worker that pops. */
module Scheduler {
  import opened Integers
  import opened RequestQueue

  const COMMUNITY := 1
  const PERSONAL := 2

  // atomic.AddInt64(&seqNext, 1)
  function Increment(n: int): int {
    if n == MAX_INT64 then MIN_INT64 else n + 1
  }

  // ---------- The queue as a sorted list ----------

  function Insert(list: seq<Request>, r: Request): (s: seq<Request>)
    ensures multiset(s) == multiset(list) + multiset{r}
  {
    if list == [] then [r]
    else if Less(r, list[0]) then [r] + list
    else
      assert list == [list[0]] + list[1..];
      [list[0]] + Insert(list[1..], r)
  }

  // Without the first r.
  ghost function Removed(list: seq<Request>, r: Request): (s: seq<Request>)
    requires r in list
    ensures multiset(list) == multiset(s) + multiset{r}
    ensures list[0] == r ==> s == list[1..]
  {
    assert list == [list[0]] + list[1..];
    if list[0] == r then list[1..] else [list[0]] + Removed(list[1..], r)
  }

  // Strictly increasing, so without two equal ranks.
  ghost predicate Ordered(list: seq<Request>) {
    forall i, j | 0 <= i < j < |list| :: Less(list[i], list[j])
  }

  ghost predicate SameRank(a: Request, b: Request) {
    !Less(a, b) && !Less(b, a)
  }

  lemma InsertMembers(list: seq<Request>, r: Request, y: Request)
    ensures y in Insert(list, r) <==> y in list || y == r
  {
    assert y in multiset(Insert(list, r)) <==> y in multiset(list) + multiset{r};
  }

  lemma OrderedCons(x: Request, rest: seq<Request>)
    requires Ordered(rest) && forall y | y in rest :: Less(x, y)
    ensures Ordered([x] + rest)
  {}

  lemma FirstPrecedes(list: seq<Request>, y: Request)
    requires Ordered(list) && list != [] && y in list[1..]
    ensures Less(list[0], y)
  {
    var j :| 0 <= j < |list[1..]| && list[1..][j] == y;
    assert Less(list[0], list[j + 1]);
  }

  lemma {:induction false} InsertOrdered(list: seq<Request>, r: Request)
    requires Ordered(list) && forall x | x in list :: !SameRank(x, r)
    ensures Ordered(Insert(list, r))
  {
    if list != [] {
      if Less(r, list[0]) {
        forall y | y in list ensures Less(r, y) {
          var j :| 0 <= j < |list| && list[j] == y;
        }
        OrderedCons(r, list);
      } else {
        RemainsOrdered(list);
        InsertOrdered(list[1..], r);
        forall y | y in Insert(list[1..], r) ensures Less(list[0], y) {
          InsertMembers(list[1..], r, y);
          if y in list[1..] {
            FirstPrecedes(list, y);
          } else {
            assert !SameRank(list[0], r);
          }
        }
        OrderedCons(list[0], Insert(list[1..], r));
      }
    }
  }

  lemma FirstIsLeast(list: seq<Request>, r: Request)
    requires Ordered(list) && r in list && forall x | x in list :: !Less(x, r)
    ensures r == list[0]
  {
    var i :| 0 <= i < |list| && list[i] == r;
    assert !Less(list[0], list[i]);
  }

  lemma RemainsOrdered(list: seq<Request>)
    requires Ordered(list) && list != []
    ensures Ordered(list[1..])
  {
    forall i, j | 0 <= i < j < |list| - 1 ensures Less(list[1..][i], list[1..][j]) {
      assert Less(list[i + 1], list[j + 1]);
    }
  }

  lemma SameMembers(list: seq<Request>, items: seq<Request>, x: Request)
    requires multiset(items) == multiset(list)
    ensures x in list <==> x in items
  {
    assert x in multiset(list) <==> x in multiset(items);
  }

  lemma RemovedLeaves(list: seq<Request>, left: multiset<Request>, req: Request)
    requires req in list && multiset(list) == left + multiset{req}
    ensures multiset(Removed(list, req)) == left
  {
    assert left == multiset(list) - multiset{req};
    assert multiset(Removed(list, req)) == multiset(list) - multiset{req};
  }

  // What the heap gave up was in the list, with nothing before it.
  lemma PoppedIsLeast(list: seq<Request>, items: seq<Request>, left: seq<Request>, req: Request)
    requires multiset(items) == multiset(list) && multiset(items) == multiset(left) + multiset{req}
    requires forall x | x in items :: !Less(x, req)
    ensures req in list && forall x | x in list :: !Less(x, req)
    ensures multiset(Removed(list, req)) == multiset(left)
    ensures Ordered(list) ==> req == list[0] && Removed(list, req) == list[1..] && Ordered(list[1..])
  {
    assert req in multiset(list);
    forall x | x in list ensures !Less(x, req) {
      SameMembers(list, items, x);
    }
    RemovedLeaves(list, multiset(left), req);
    if Ordered(list) {
      FirstIsLeast(list, req);
      RemainsOrdered(list);
    }
  }

  class Scheduler {
    var queue: Queue
    var seqNext: int
    ghost var waiting: seq<Request>  // the queue in the order in which it will be served

    // The heap holds exactly the list.
    ghost predicate Valid()
      reads this, queue
    {
      Heap(queue.items) && multiset(queue.items) == multiset(waiting)
    }

    constructor ()
      ensures Valid() && fresh(queue) && waiting == [] && seqNext == 0
    {
      queue := new Queue();
      seqNext, waiting := 0, [];
    }

    // The list stays sorted unless the stamp is in use: it is new until the counter has gone all the way round.
    method Enqueue(req: Request)
      requires Valid()
      modifies this`seqNext, this`waiting, queue
      ensures Valid() && seqNext == Increment(old(seqNext))
      ensures waiting == Insert(old(waiting), req.(seqNo := seqNext))
      ensures old(Ordered(waiting)) && (forall r | r in old(waiting) :: r.seqNo != seqNext) ==> Ordered(waiting)
    {
      seqNext := Increment(seqNext);
      var stamped := req.(seqNo := seqNext);
      if Ordered(waiting) && forall r | r in waiting :: r.seqNo != seqNext {
        InsertOrdered(waiting, stamped);
      }
      queue.Push(stamped);
      waiting := Insert(waiting, stamped);
    }

    // The worker waits while the queue is empty, then pops. With equal stamps it pops one of the first.
    method Dequeue() returns (req: Request)
      requires Valid() && waiting != []
      modifies this`waiting, queue
      ensures Valid() && multiset(old(waiting)) == multiset(waiting) + multiset{req}
      ensures forall x | x in old(waiting) :: !Less(x, req)
      ensures old(Ordered(waiting)) ==> req == old(waiting)[0] && waiting == old(waiting)[1..] && Ordered(waiting)
    {
      assert waiting[0] in multiset(queue.items);
      ghost var items := queue.items;
      req := queue.Pop();
      PoppedIsLeast(waiting, items, queue.items, req);
      waiting := Removed(waiting, req);
    }
  }

  function CommunityCount(list: seq<Request>): (n: nat)
    ensures n <= |list|
  {
    if list == [] then 0
    else (if list[0].priority == COMMUNITY then 1 else 0) + CommunityCount(list[1..])
  }

  // ---------- Whole runs ----------

  // What the scheduler has seen: everything stamped and queued, what waits, and what was served, in order.
  datatype State = State(waiting: seq<Request>, seqNext: int, arrived: seq<Request>, served: seq<Request>)

  datatype Op = Arrive(request: Request) | Serve

  const INITIAL := State([], 0, [], [])

  // An arrival and a service as Enqueue and Dequeue make them; the worker waits while nothing is queued.
  function Step(s: State, op: Op): State {
    match op
    case Arrive(request) =>
      var stamped := request.(seqNo := Increment(s.seqNext));
      State(Insert(s.waiting, stamped), Increment(s.seqNext), s.arrived + [stamped], s.served)
    case Serve =>
      if s.waiting == [] then s
      else State(s.waiting[1..], s.seqNext, s.arrived, s.served + [s.waiting[0]])
  }

  function Run(s: State, ops: seq<Op>): State
    decreases |ops|
  {
    if ops == [] then s else Step(Run(s, ops[..|ops| - 1]), ops[|ops| - 1])
  }

  function Arrivals(ops: seq<Op>): (n: nat)
    ensures n <= |ops|
  {
    if ops == [] then 0
    else Arrivals(ops[..|ops| - 1]) + if ops[|ops| - 1].Arrive? then 1 else 0
  }

  function CommunityArrivals(ops: seq<Op>): nat {
    if ops == [] then 0
    else
      var last := ops[|ops| - 1];
      CommunityArrivals(ops[..|ops| - 1]) + if last.Arrive? && last.request.priority == COMMUNITY then 1 else 0
  }

  function Services(ops: seq<Op>): nat {
    if ops == [] then 0 else Services(ops[..|ops| - 1]) + if ops[|ops| - 1].Serve? then 1 else 0
  }

  // /submit and /consent only make requests of the two classes.
  ghost predicate TwoClasses(ops: seq<Op>) {
    forall i | 0 <= i < |ops| && ops[i].Arrive? :: ops[i].request.priority in {COMMUNITY, PERSONAL}
  }

  ghost predicate Stamped(s: State) {
    && Ordered(s.waiting) && 0 <= s.seqNext <= MAX_INT64
    && forall r | r in s.waiting :: 1 <= r.seqNo <= s.seqNext && r.priority in {COMMUNITY, PERSONAL}
  }

  // Where the newcomer goes: after all of its class, and community before personal.
  function Place(list: seq<Request>, priority: int): nat {
    if priority == COMMUNITY then CommunityCount(list) else |list|
  }

  lemma {:induction false} NoCommunity(list: seq<Request>)
    requires forall x | x in list :: x.priority != COMMUNITY
    ensures CommunityCount(list) == 0
  {
    if list != [] {
      NoCommunity(list[1..]);
    }
  }

  // Before a personal request there may be community ones, after one there are none.
  lemma PersonalFollows(list: seq<Request>)
    requires Ordered(list) && list != [] && list[0].priority == PERSONAL
    requires forall x | x in list :: x.priority in {COMMUNITY, PERSONAL}
    ensures CommunityCount(list) == 0
  {
    forall x | x in list ensures x.priority != COMMUNITY {
      var i :| 0 <= i < |list| && list[i] == x;
      assert i > 0 ==> Less(list[0], list[i]);
    }
    NoCommunity(list);
  }

  // Where the newcomer goes relative to the first entry.
  lemma PlaceStep(list: seq<Request>, r: Request)
    requires Ordered(list) && list != [] && r.priority in {COMMUNITY, PERSONAL}
    requires forall x | x in list :: x.seqNo < r.seqNo && x.priority in {COMMUNITY, PERSONAL}
    ensures Place(list, r.priority) == if Less(r, list[0]) then 0 else 1 + Place(list[1..], r.priority)
  {
    assert list[0] in list;
    if list[0].priority == PERSONAL {
      PersonalFollows(list);
    }
  }

  lemma Splice(list: seq<Request>, r: Request, p: nat)
    requires list != [] && p < |list|
    ensures [list[0]] + (list[1..][..p] + [r] + list[1..][p..]) == list[..p + 1] + [r] + list[p + 1..]
  {
    assert [list[0]] + list[1..][..p] == list[..p + 1];
    assert list[1..][p..] == list[p + 1..];
  }

  lemma {:induction false} InsertPlace(list: seq<Request>, r: Request)
    requires Ordered(list) && r.priority in {COMMUNITY, PERSONAL}
    requires forall x | x in list :: x.seqNo < r.seqNo && x.priority in {COMMUNITY, PERSONAL}
    ensures Place(list, r.priority) <= |list|
    ensures Insert(list, r) == list[..Place(list, r.priority)] + [r] + list[Place(list, r.priority)..]
  {
    if list != [] {
      PlaceStep(list, r);
      if !Less(r, list[0]) {
        RemainsOrdered(list);
        InsertPlace(list[1..], r);
        Splice(list, r, Place(list[1..], r.priority));
      }
    }
  }

  // The counter never wraps in this run.
  ghost predicate Counted(s: State, ops: seq<Op>) {
    s.seqNext + Arrivals(ops) <= MAX_INT64
  }

  // A step with a class that exists, before the counter wraps.
  ghost predicate Regular(s: State, op: Op) {
    op.Arrive? ==> s.seqNext < MAX_INT64 && op.request.priority in {COMMUNITY, PERSONAL}
  }

  lemma StampedArrive(s: State, request: Request)
    requires Stamped(s) && Regular(s, Arrive(request))
    ensures Stamped(Step(s, Arrive(request)))
    ensures var r, p := request.(seqNo := s.seqNext + 1), Place(s.waiting, request.priority);
      p <= |s.waiting| && Step(s, Arrive(request)).waiting == s.waiting[..p] + [r] + s.waiting[p..]
  {
    var r := request.(seqNo := s.seqNext + 1);
    InsertOrdered(s.waiting, r);
    InsertPlace(s.waiting, r);
    forall x | x in Insert(s.waiting, r) ensures 1 <= x.seqNo <= r.seqNo && x.priority in {COMMUNITY, PERSONAL} {
      InsertMembers(s.waiting, r, x);
    }
  }

  lemma StampedStep(s: State, op: Op)
    requires Stamped(s) && Regular(s, op)
    ensures Stamped(Step(s, op))
    ensures Step(s, op).seqNext == s.seqNext + if op.Arrive? then 1 else 0
  {
    if op.Arrive? {
      StampedArrive(s, op.request);
    } else if s.waiting != [] {
      RemainsOrdered(s.waiting);
    }
  }

  // The last step of a run is regular, and the run before it as well.
  lemma RunParts(s: State, ops: seq<Op>, n: nat)
    requires TwoClasses(ops) && Counted(s, ops) && |ops| == n + 1
    ensures TwoClasses(ops[..n]) && Counted(s, ops[..n])
    ensures ops[n].Arrive? ==> ops[n].request.priority in {COMMUNITY, PERSONAL}
    ensures ops[n].Arrive? ==> s.seqNext + Arrivals(ops[..n]) < MAX_INT64
  {}

  lemma {:induction false} StampedRun(s: State, ops: seq<Op>)
    requires Stamped(s) && TwoClasses(ops) && Counted(s, ops)
    ensures Stamped(Run(s, ops)) && Run(s, ops).seqNext == s.seqNext + Arrivals(ops)
    decreases |ops|
  {
    if ops != [] {
      var n := |ops| - 1;
      RunParts(s, ops, n);
      StampedRun(s, ops[..n]);
      StampedStep(Run(s, ops[..n]), ops[n]);
    }
  }

  // The arrivals that go ahead of e.
  function Overtaking(e: Request, ops: seq<Op>): nat {
    if e.priority == COMMUNITY then 0 else CommunityArrivals(ops)
  }

  // The community requests are the first ones.
  lemma {:induction false} CommunityPrefix(list: seq<Request>, i: nat)
    requires Ordered(list) && i < |list|
    requires forall x | x in list :: x.priority in {COMMUNITY, PERSONAL}
    ensures list[i].priority == COMMUNITY <==> i < CommunityCount(list)
  {
    if list[0].priority == COMMUNITY {
      if i > 0 {
        CommunityPrefix(list[1..], i - 1);
      }
    } else {
      forall j | 0 <= j < |list| ensures list[j].priority == PERSONAL {
        assert j > 0 ==> Less(list[0], list[j]);
      }
      NoCommunity(list);
    }
  }

  lemma SpliceKeeps(list: seq<Request>, r: Request, p: nat, i: nat)
    requires p <= |list| && i < |list|
    ensures var t, j := list[..p] + [r] + list[p..], if i < p then i else i + 1;
      j < |t| && t[j] == list[i]
  {}

  lemma ArriveKeeps(s: State, request: Request, i: nat)
    requires Stamped(s) && Regular(s, Arrive(request)) && i < |s.waiting|
    ensures var t := Step(s, Arrive(request)).waiting;
      var j := i + if s.waiting[i].priority != COMMUNITY && request.priority == COMMUNITY then 1 else 0;
      j < |t| && t[j] == s.waiting[i]
  {
    var p := Place(s.waiting, request.priority);
    StampedArrive(s, request);
    CommunityPrefix(s.waiting, i);
    SpliceKeeps(s.waiting, request.(seqNo := s.seqNext + 1), p, i);
  }

  lemma ServeShifts(s: State, e: Request)
    requires Stamped(s) && s.waiting != []
    ensures e in Step(s, Serve).waiting <==> e in s.waiting && e != s.waiting[0]
  {
    assert s.waiting == [s.waiting[0]] + s.waiting[1..];
    if e in s.waiting[1..] {
      var i :| 0 <= i < |s.waiting[1..]| && s.waiting[1..][i] == e;
      assert Less(s.waiting[0], s.waiting[i + 1]);
    }
  }

  // The index of e after ops, as long as it waits.
  function PlaceAfter(e: Request, p: nat, ops: seq<Op>): int {
    p + Overtaking(e, ops) - Services(ops)
  }

  // While e waits, its index is its first index, plus the arrivals that went ahead, minus the services.
  ghost predicate Tracks(t: State, e: Request, place: int) {
    if e in t.waiting then 0 <= place < |t.waiting| && t.waiting[place] == e else e in t.served
  }

  // What one step does to the index of e.
  function Moved(e: Request, place: int, op: Op): int {
    if op.Serve? then place - 1
    else if e.priority != COMMUNITY && op.request.priority == COMMUNITY then place + 1
    else place
  }

  lemma TrackArrive(t: State, e: Request, place: int, request: Request)
    requires Stamped(t) && Regular(t, Arrive(request)) && Tracks(t, e, place) && e in t.waiting
    ensures e in Step(t, Arrive(request)).waiting
    ensures Tracks(Step(t, Arrive(request)), e, Moved(e, place, Arrive(request)))
  {
    ArriveKeeps(t, request, place);
  }

  lemma ArriveLeavesServed(t: State, e: Request, request: Request)
    requires e !in t.waiting && e.seqNo <= t.seqNext < MAX_INT64
    ensures e !in Step(t, Arrive(request)).waiting && Step(t, Arrive(request)).served == t.served
  {
    InsertMembers(t.waiting, request.(seqNo := t.seqNext + 1), e);
  }

  lemma TrackServe(t: State, e: Request, place: int)
    requires Stamped(t) && Tracks(t, e, place)
    ensures Tracks(Step(t, Serve), e, place - 1)
    ensures e in t.waiting ==> (e in Step(t, Serve).waiting <==> place > 0)
    ensures e in Step(t, Serve).waiting ==> e in t.waiting
  {
    if t.waiting != [] {
      ServeShifts(t, e);
      if e in t.waiting && place > 0 {
        assert Less(t.waiting[0], t.waiting[place]);
      }
    }
  }

  // One step: the index, and for a community request, whether it still waits.
  lemma TrackStep(t: State, e: Request, place: int, op: Op)
    requires Stamped(t) && Regular(t, op) && Tracks(t, e, place) && e.seqNo <= t.seqNext
    requires e.priority == COMMUNITY ==> (e in t.waiting <==> place >= 0)
    ensures Tracks(Step(t, op), e, Moved(e, place, op))
    ensures e.priority == COMMUNITY ==> (e in Step(t, op).waiting <==> Moved(e, place, op) >= 0)
  {
    if op.Arrive? {
      if e in t.waiting {
        TrackArrive(t, e, place, op.request);
      } else {
        ArriveLeavesServed(t, e, op.request);
      }
    } else {
      TrackServe(t, e, place);
    }
  }

  lemma PlaceMoves(e: Request, p: nat, ops: seq<Op>, n: nat)
    requires |ops| == n + 1
    ensures PlaceAfter(e, p, ops) == Moved(e, PlaceAfter(e, p, ops[..n]), ops[n])
  {}

  lemma {:induction false} Tracked(s: State, ops: seq<Op>, p: nat)
    requires Stamped(s) && TwoClasses(ops) && Counted(s, ops) && p < |s.waiting|
    ensures Tracks(Run(s, ops), s.waiting[p], PlaceAfter(s.waiting[p], p, ops))
    ensures s.waiting[p].priority == COMMUNITY ==>
      (s.waiting[p] in Run(s, ops).waiting <==> PlaceAfter(s.waiting[p], p, ops) >= 0)
    decreases |ops|
  {
    if ops != [] {
      var n, e := |ops| - 1, s.waiting[p];
      RunParts(s, ops, n);
      Tracked(s, ops[..n], p);
      StampedRun(s, ops[..n]);
      assert e in s.waiting;
      TrackStep(Run(s, ops[..n]), e, PlaceAfter(e, p, ops[..n]), ops[n]);
      PlaceMoves(e, p, ops, n);
    }
  }

  // A waiting request is served next exactly when the services so far are the entries that were ahead of it
  // plus the arrivals that went ahead of it.
  lemma ServicePosition(s: State, ops: seq<Op>, p: nat)
    requires Stamped(s) && TwoClasses(ops) && Counted(s, ops) && p < |s.waiting|
    requires s.waiting[p] in Run(s, ops).waiting
    ensures Step(Run(s, ops), Serve).served == Run(s, ops).served + [s.waiting[p]]
       <==> Services(ops) == p + Overtaking(s.waiting[p], ops)
  {
    var t := Run(s, ops);
    Tracked(s, ops, p);
    StampedRun(s, ops);
    var place := PlaceAfter(s.waiting[p], p, ops);
    if place > 0 {
      assert Less(t.waiting[0], t.waiting[place]);
      assert Step(t, Serve).served[|t.served|] == t.waiting[0];
    }
  }

  // Where e stands in t, after a run that begins when e has found these requests waiting. Whatever arrives in the run,
  // a community request is served after the community requests it found; a personal one after all it found and the
  // later community ones.
  ghost predicate InPlace(t: State, e: Request, found: seq<Request>, ops: seq<Op>) {
    var next := Step(t, Serve).served == t.served + [e];
    && (e in t.waiting || e in t.served)
    && (e.priority == 1 ==> (e in t.waiting <==> Services(ops) <= CommunityCount(found)))
    && (e.priority == 1 && e in t.waiting ==> (next <==> Services(ops) == CommunityCount(found)))
    && (e.priority == 2 && e in t.waiting ==> (next <==> Services(ops) == |found| + CommunityArrivals(ops)))
  }

  lemma PositionOnArrival(s: State, request: Request, ops: seq<Op>)
    requires Stamped(s) && Regular(s, Arrive(request))
    requires TwoClasses(ops) && Counted(Step(s, Arrive(request)), ops)
    ensures InPlace(Run(Step(s, Arrive(request)), ops), request.(seqNo := s.seqNext + 1), s.waiting, ops)
  {
    var s', p := Step(s, Arrive(request)), Place(s.waiting, request.priority);
    var e := request.(seqNo := s.seqNext + 1);
    StampedStep(s, Arrive(request));
    StampedArrive(s, request);
    assert s'.waiting[p] == e;
    Tracked(s', ops, p);
    if e in Run(s', ops).waiting {
      ServicePosition(s', ops, p);
    }
  }

  // ---------- Conservation and first in, first out ----------

  ghost predicate InOrder(a: Request, b: Request) {
    a.priority == b.priority ==> a.seqNo < b.seqNo
  }

  // Stamps number the arrivals, and every arrival waits or was served, once.
  ghost predicate Conserved(s: State) {
    && s.seqNext == |s.arrived| && (forall i | 0 <= i < |s.arrived| :: s.arrived[i].seqNo == i + 1)
    && multiset(s.served) + multiset(s.waiting) == multiset(s.arrived)
  }

  ghost predicate FirstInFirstOut(s: State) {
    && (forall i, j | 0 <= i < j < |s.served| :: InOrder(s.served[i], s.served[j]))
    && (forall x, y | x in s.served && y in s.waiting :: InOrder(x, y))
    && forall x | x in s.served :: x.seqNo <= s.seqNext
  }

  lemma ArriveInOrder(s: State, request: Request)
    requires Stamped(s) && FirstInFirstOut(s) && s.seqNext < MAX_INT64
    ensures FirstInFirstOut(Step(s, Arrive(request)))
  {
    var r, t := request.(seqNo := s.seqNext + 1), Step(s, Arrive(request));
    forall x, y | x in t.served && y in t.waiting ensures InOrder(x, y) {
      InsertMembers(s.waiting, r, y);
    }
  }

  lemma ServeInOrder(s: State)
    requires Stamped(s) && FirstInFirstOut(s) && s.waiting != []
    ensures FirstInFirstOut(Step(s, Serve))
  {
    var t := Step(s, Serve);
    forall x, y | x in t.served && y in t.waiting ensures InOrder(x, y) {
      FirstPrecedes(s.waiting, y);
    }
  }

  lemma ArriveConserves(s: State, request: Request)
    requires Conserved(s) && s.seqNext < MAX_INT64
    ensures Conserved(Step(s, Arrive(request)))
  {}

  lemma ServeConserves(s: State)
    requires Conserved(s) && s.waiting != []
    ensures Conserved(Step(s, Serve))
  {
    assert s.waiting == [s.waiting[0]] + s.waiting[1..];
  }

  lemma OrderlyStep(s: State, op: Op)
    requires Stamped(s) && Regular(s, op) && Conserved(s) && FirstInFirstOut(s)
    ensures Conserved(Step(s, op)) && FirstInFirstOut(Step(s, op))
  {
    if op.Arrive? {
      ArriveInOrder(s, op.request);
      ArriveConserves(s, op.request);
    } else if s.waiting != [] {
      ServeInOrder(s);
      ServeConserves(s);
    }
  }

  // In every run, nothing is lost or made up, and each class is served in the order in which it arrived.
  lemma {:induction false} EveryRunIsOrderly(ops: seq<Op>)
    requires TwoClasses(ops) && Counted(INITIAL, ops)
    ensures Conserved(Run(INITIAL, ops)) && FirstInFirstOut(Run(INITIAL, ops))
    decreases |ops|
  {
    if ops != [] {
      var n := |ops| - 1;
      RunParts(INITIAL, ops, n);
      EveryRunIsOrderly(ops[..n]);
      StampedRun(INITIAL, ops[..n]);
      OrderlyStep(Run(INITIAL, ops[..n]), ops[n]);
    }
  }

  ghost predicate Precedes(list: seq<Request>, x: Request, y: Request) {
    exists i, j :: 0 <= i < j < |list| && list[i] == x && list[j] == y
  }

  lemma PrecedesIsLess(list: seq<Request>, x: Request, y: Request)
    requires Ordered(list) && x in list && y in list
    ensures Precedes(list, x, y) <==> Less(x, y)
  {
    var i :| 0 <= i < |list| && list[i] == x;
    var j :| 0 <= j < |list| && list[j] == y;
    assert i < j ==> Less(list[i], list[j]);
    assert j < i ==> Less(list[j], list[i]);
  }

  // A newcomer goes behind everything of its class that waits, exactly until the counter is about to wrap; then it
  // goes ahead of all of it.
  lemma NewcomerIsLast(s: State, request: Request)
    requires Stamped(s)
    ensures var t := Step(s, Arrive(request));
      var r := request.(seqNo :=
                 if s.seqNext == 0x7fff_ffff_ffff_ffff then -0x8000_0000_0000_0000 else s.seqNext + 1);
      && ((forall x | x in s.waiting && x.priority == r.priority :: Precedes(t.waiting, x, r)) <==>
          s.seqNext < 0x7fff_ffff_ffff_ffff || forall x | x in s.waiting :: x.priority != r.priority)
      && (s.seqNext == 0x7fff_ffff_ffff_ffff ==>
          forall x | x in s.waiting && x.priority == r.priority :: Precedes(t.waiting, r, x))
  {
    var t, r := Step(s, Arrive(request)), request.(seqNo := Increment(s.seqNext));
    InsertOrdered(s.waiting, r);
    InsertMembers(s.waiting, r, r);
    forall x | x in s.waiting
      ensures Precedes(t.waiting, x, r) <==> Less(x, r)
      ensures Precedes(t.waiting, r, x) <==> Less(r, x)
    {
      InsertMembers(s.waiting, r, x);
      PrecedesIsLess(t.waiting, x, r);
      PrecedesIsLess(t.waiting, r, x);
    }
  }
}
