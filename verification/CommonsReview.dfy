/** The Commons Review of daemon/handlers.go and daemon/scheduler.go: a personal request may be held back for
    consent, and only a consent may raise its class. Every critical section is one step, and steps interleave. */
module CommonsReview {
  import opened RequestQueue
  import opened Wrappers
  import Scheduler

  const TTL := 60_000_000_000  // nanoseconds

  datatype Review = Review(prompt: string, model: string, justification: string, expiresAt: int)

  // A request as it is handed to Enqueue, not stamped yet.
  function Unstamped(priority: int, prompt: string, model: string, justification: string): Request {
    Request(priority, prompt, model, justification, 0)
  }

  function Requested(r: Review, priority: int): Request {
    Unstamped(priority, r.prompt, r.model, r.justification)
  }

  // Who handed it over: /submit with the class asked for, /consent for a review, or the expiry loop.
  datatype Cause = Submission(asked: int) | Consent(id: string) | Timeout(id: string)

  datatype Entry = Entry(cause: Cause, request: Request)

  // A /consent handler between its steps: it has taken the review, and then found it not expired.
  datatype Handler =
    | Taken(id: string, review: Review, upgrade: bool)
    | Approved(id: string, review: Review, upgrade: bool)

  datatype State = State(
    reviews: map<string, Review>,    // node.reviews
    handlers: map<nat, Handler>,     // the /consent calls under way
    enqueued: seq<Entry>,            // the calls of Enqueue so far
    created: map<string, Review>,    // every review ever stored
    taken: map<string, bool>,        // the answer of the /consent call that took each review
    discarded: map<string, int>      // the reviews answered 410, with the time read then
  )

  const INITIAL := State(map[], map[], [], map[], map[], map[])

  datatype Action =
    | Submit(asked: int, prompt: string, model: string, justification: string)
    | OpenReview(id: string, prompt: string, model: string, justification: string, now: int)
    | TakeReview(handler: nat, id: string, upgrade: bool)
    | CheckExpiry(handler: nat, now: int)
    | EnqueueConsented(handler: nat)
    | Expire(id: string, now: int)

  function FinalClass(upgrade: bool): int {
    if upgrade then Scheduler.COMMUNITY else Scheduler.PERSONAL
  }

  function Step(s: State, a: Action): State {
    match a
    case Submit(asked, prompt, model, justification) =>
      s.(enqueued := s.enqueued + [Entry(Submission(asked), Unstamped(asked, prompt, model, justification))])
    case OpenReview(id, prompt, model, justification, now) =>
      var review := Review(prompt, model, justification, now + TTL);
      s.(reviews := s.reviews[id := review], created := s.created[id := review])
    case TakeReview(h, id, upgrade) =>
      if id in s.reviews then
        s.(reviews := s.reviews - {id}, handlers := s.handlers[h := Taken(id, s.reviews[id], upgrade)],
           taken := s.taken[id := upgrade])
      else s
    case CheckExpiry(h, now) =>
      if h in s.handlers && s.handlers[h].Taken? then
        var c := s.handlers[h];
        if now > c.review.expiresAt then
          s.(handlers := s.handlers - {h}, discarded := s.discarded[c.id := now])
        else s.(handlers := s.handlers[h := Approved(c.id, c.review, c.upgrade)])
      else s
    case EnqueueConsented(h) =>
      if h in s.handlers && s.handlers[h].Approved? then
        var c := s.handlers[h];
        var request := Requested(c.review, FinalClass(c.upgrade));
        s.(handlers := s.handlers - {h}, enqueued := s.enqueued + [Entry(Consent(c.id), request)])
      else s
    case Expire(id, now) =>
      if id in s.reviews && now > s.reviews[id].expiresAt then
        var request := Unstamped(Scheduler.PERSONAL, s.reviews[id].prompt, s.reviews[id].model, "");
        s.(reviews := s.reviews - {id}, enqueued := s.enqueued + [Entry(Timeout(id), request)])
      else s
  }

  function Run(s: State, actions: seq<Action>): State
    decreases |actions|
  {
    if actions == [] then s else Step(Run(s, actions[..|actions| - 1]), actions[|actions| - 1])
  }

  // What the surroundings guarantee: classes are checked, review ids are new, and so is each handler.
  ghost predicate Allowed(s: State, a: Action) {
    match a
    case Submit(asked, _, _, _) => asked in {Scheduler.COMMUNITY, Scheduler.PERSONAL}
    case OpenReview(id, _, _, _, _) => id !in s.created
    case TakeReview(h, _, _) => h !in s.handlers
    case _ => true
  }

  ghost predicate AllowedRun(actions: seq<Action>) {
    forall n: nat | n < |actions| :: Allowed(Run(INITIAL, actions[..n]), actions[n])
  }

  // ---------- The four places of a review ----------

  function PendingIds(s: State): set<string> {
    s.reviews.Keys
  }

  function HandledIds(handlers: map<nat, Handler>): set<string> {
    set h | h in handlers :: handlers[h].id
  }

  function EntryIds(e: Entry): set<string> {
    if e.cause.Submission? then {} else {e.cause.id}
  }

  function EnqueuedIds(log: seq<Entry>): set<string> {
    if log == [] then {} else EnqueuedIds(log[..|log| - 1]) + EntryIds(log[|log| - 1])
  }

  function DiscardedIds(s: State): set<string> {
    s.discarded.Keys
  }

  ghost predicate OneHandlerEach(handlers: map<nat, Handler>) {
    forall h, h' | h in handlers && h' in handlers && handlers[h].id == handlers[h'].id :: h == h'
  }

  ghost predicate OneEntryEach(log: seq<Entry>) {
    log == [] || (OneEntryEach(log[..|log| - 1]) && EntryIds(log[|log| - 1]) !! EnqueuedIds(log[..|log| - 1]))
  }

  ghost predicate Parts(all: set<string>, a: set<string>, b: set<string>, c: set<string>, d: set<string>) {
    all == a + b + c + d && a !! b !! c !! d
  }

  // Every review ever created is pending, or held by one /consent call, or enqueued once, or discarded.
  ghost predicate Partitioned(s: State) {
    && Parts(s.created.Keys, PendingIds(s), HandledIds(s.handlers), EnqueuedIds(s.enqueued), DiscardedIds(s))
    && OneHandlerEach(s.handlers) && OneEntryEach(s.enqueued)
  }

  // The stored review is what travels, with the answer of the call that took it.
  ghost predicate Faithful(s: State) {
    && (forall id | id in s.reviews :: id in s.created && s.reviews[id] == s.created[id] && id !in s.taken)
    && (forall h | h in s.handlers :: HandlerFaithful(s, s.handlers[h]))
    && (forall id | id in s.discarded :: DiscardFaithful(s, id))
    && forall id | id in s.taken :: id in s.created
  }

  ghost predicate HandlerFaithful(s: State, c: Handler) {
    c.id in s.created && c.review == s.created[c.id] && c.id in s.taken && c.upgrade == s.taken[c.id]
  }

  ghost predicate DiscardFaithful(s: State, id: string)
    requires id in s.discarded
  {
    id in s.created && s.discarded[id] > s.created[id].expiresAt && id in s.taken
  }

  // What an entry of the log may be. The class is the one asked for, or what the call that took the review
  // answered; a review that no call took runs as personal.
  ghost predicate Justified(created: map<string, Review>, taken: map<string, bool>, e: Entry) {
    match e.cause
    case Submission(asked) => e.request.priority == asked && asked in {Scheduler.COMMUNITY, Scheduler.PERSONAL}
    case Consent(id) =>
      && id in created && id in taken
      && e.request == Requested(created[id], FinalClass(taken[id]))
    case Timeout(id) =>
      && id in created && id !in taken
      && e.request == Requested(created[id].(justification := ""), Scheduler.PERSONAL)
  }

  ghost predicate AllJustified(created: map<string, Review>, taken: map<string, bool>, log: seq<Entry>) {
    forall i | 0 <= i < |log| :: Justified(created, taken, log[i])
  }

  ghost predicate Inv(s: State) {
    Partitioned(s) && Faithful(s) && AllJustified(s.created, s.taken, s.enqueued)
  }

  // An id moves to the third part from the first or the second.
  lemma PartsMove(all: set<string>, a: set<string>, b: set<string>, c: set<string>, d: set<string>, id: string)
    requires Parts(all, a, b, c, d)
    ensures id in a ==> Parts(all, a - {id}, b, c + {id}, d)
    ensures id in b ==> Parts(all, a, b - {id}, c + {id}, d)
  {}

  lemma LogStep(log: seq<Entry>, e: Entry)
    ensures EnqueuedIds(log + [e]) == EnqueuedIds(log) + EntryIds(e)
    ensures OneEntryEach(log + [e]) <==> OneEntryEach(log) && EntryIds(e) !! EnqueuedIds(log)
  {
    assert (log + [e])[..|log|] == log;
  }

  lemma HandlersAdd(handlers: map<nat, Handler>, h: nat, c: Handler)
    requires h !in handlers && c.id !in HandledIds(handlers) && OneHandlerEach(handlers)
    ensures HandledIds(handlers[h := c]) == HandledIds(handlers) + {c.id} && OneHandlerEach(handlers[h := c])
  {
    var t := handlers[h := c];
    forall id ensures id in HandledIds(t) <==> id in HandledIds(handlers) + {c.id} {
      if id in HandledIds(handlers) {
        var h' :| h' in handlers && handlers[h'].id == id;
        assert t[h'].id == id;
      }
      assert t[h].id == c.id;
    }
  }

  lemma HandlersRemove(handlers: map<nat, Handler>, h: nat)
    requires h in handlers && OneHandlerEach(handlers)
    ensures HandledIds(handlers - {h}) == HandledIds(handlers) - {handlers[h].id} && OneHandlerEach(handlers - {h})
  {
    var t := handlers - {h};
    forall id ensures id in HandledIds(t) <==> id in HandledIds(handlers) - {handlers[h].id} {
      if id in HandledIds(handlers) && id != handlers[h].id {
        var h' :| h' in handlers && handlers[h'].id == id;
        assert t[h'].id == id;
      }
    }
  }

  lemma HandlersUpdate(handlers: map<nat, Handler>, h: nat, c: Handler)
    requires h in handlers && handlers[h].id == c.id && OneHandlerEach(handlers)
    ensures HandledIds(handlers[h := c]) == HandledIds(handlers) && OneHandlerEach(handlers[h := c])
  {
    var t := handlers[h := c];
    forall h' | h' in handlers ensures t[h'].id == handlers[h'].id {}
  }

  predicate Concerns(e: Entry, id: string) {
    !e.cause.Submission? && e.cause.id == id
  }

  lemma {:induction false} EntryIndices(log: seq<Entry>, id: string)
    ensures id in EnqueuedIds(log) <==> exists i :: 0 <= i < |log| && Concerns(log[i], id)
    ensures OneEntryEach(log) ==> forall i, j | 0 <= i < j < |log| && Concerns(log[i], id) :: !Concerns(log[j], id)
  {
    if log != [] {
      var n := |log| - 1;
      EntryIndices(log[..n], id);
      assert Concerns(log[n], id) <==> id in EntryIds(log[n]);
      if id in EnqueuedIds(log[..n]) {
        var i :| 0 <= i < n && Concerns(log[..n][i], id);
        assert Concerns(log[i], id);
      }
      forall i, j | 0 <= i < j < n ensures log[..n][i] == log[i] && log[..n][j] == log[j] {}
    }
  }

  // Creating a review, and taking one that is not in the log, leave the log justified.
  lemma JustifiedGrows(s: State, t: State)
    requires AllJustified(s.created, s.taken, s.enqueued) && t.enqueued == s.enqueued
    requires forall id | id in s.created :: id in t.created && t.created[id] == s.created[id]
    requires forall id | id in s.taken :: id in t.taken && t.taken[id] == s.taken[id]
    requires forall id | id in t.taken && id !in s.taken :: id !in EnqueuedIds(s.enqueued)
    ensures AllJustified(t.created, t.taken, t.enqueued)
  {
    forall i | 0 <= i < |s.enqueued| ensures Justified(t.created, t.taken, s.enqueued[i]) {
      var e := s.enqueued[i];
      assert Justified(s.created, s.taken, e);
      if e.cause.Timeout? {
        EntryIndices(s.enqueued, e.cause.id);
        assert Concerns(e, e.cause.id);
      }
    }
  }

  lemma JustifiedAppend(created: map<string, Review>, taken: map<string, bool>, log: seq<Entry>, e: Entry)
    requires AllJustified(created, taken, log) && Justified(created, taken, e)
    ensures AllJustified(created, taken, log + [e])
  {}

  lemma SubmitInv(s: State, a: Action)
    requires Inv(s) && Allowed(s, a) && a.Submit?
    ensures Inv(Step(s, a))
  {
    LogStep(s.enqueued, Step(s, a).enqueued[|s.enqueued|]);
  }

  lemma OpenFaithful(s: State, a: Action)
    requires Faithful(s) && Allowed(s, a) && a.OpenReview?
    ensures Faithful(Step(s, a))
  {
    var t := Step(s, a);
    forall h | h in t.handlers ensures HandlerFaithful(t, t.handlers[h]) {
      assert HandlerFaithful(s, s.handlers[h]);
    }
    forall id | id in t.discarded ensures DiscardFaithful(t, id) {
      assert DiscardFaithful(s, id);
    }
  }

  lemma OpenInv(s: State, a: Action)
    requires Inv(s) && Allowed(s, a) && a.OpenReview?
    ensures Inv(Step(s, a))
  {
    JustifiedGrows(s, Step(s, a));
    OpenFaithful(s, a);
  }

  // Handlers and discards stay faithful when nothing created or taken is forgotten.
  lemma FaithfulGrows(s: State, t: State)
    requires Faithful(s) && s.created == t.created
    requires forall id | id in s.taken :: id in t.taken && t.taken[id] == s.taken[id]
    requires forall id | id in t.taken && id !in s.taken :: id in s.created && id !in t.reviews
    requires forall id | id in t.reviews :: id in s.reviews && t.reviews[id] == s.reviews[id]
    requires forall h | h in t.handlers :: HandlerFaithful(t, t.handlers[h]) ||
                                           (h in s.handlers && t.handlers[h] == s.handlers[h])
    requires forall id | id in t.discarded :: DiscardFaithful(t, id) ||
                                              (id in s.discarded && t.discarded[id] == s.discarded[id])
    ensures Faithful(t)
  {
    forall h | h in t.handlers ensures HandlerFaithful(t, t.handlers[h]) {
      assert h in s.handlers ==> HandlerFaithful(s, s.handlers[h]);
    }
    forall id | id in t.discarded ensures DiscardFaithful(t, id) {
      assert id in s.discarded ==> DiscardFaithful(s, id);
    }
  }

  lemma TakePartitioned(s: State, a: Action)
    requires Partitioned(s) && a.TakeReview? && a.handler !in s.handlers && a.id in s.reviews
    ensures Partitioned(Step(s, a))
  {
    HandlersAdd(s.handlers, a.handler, Step(s, a).handlers[a.handler]);
  }

  lemma TakeInv(s: State, a: Action)
    requires Inv(s) && Allowed(s, a) && a.TakeReview?
    ensures Inv(Step(s, a))
  {
    if a.id in s.reviews {
      JustifiedGrows(s, Step(s, a));
      FaithfulGrows(s, Step(s, a));
      TakePartitioned(s, a);
    }
  }

  lemma DiscardPartitioned(s: State, h: nat, now: int)
    requires Partitioned(s) && h in s.handlers
    ensures Partitioned(s.(handlers := s.handlers - {h}, discarded := s.discarded[s.handlers[h].id := now]))
  {
    var id := s.handlers[h].id;
    assert id in HandledIds(s.handlers);
    HandlersRemove(s.handlers, h);
    PartsMove(s.created.Keys, PendingIds(s), HandledIds(s.handlers), DiscardedIds(s), EnqueuedIds(s.enqueued), id);
  }

  lemma CheckPartitioned(s: State, a: Action)
    requires Partitioned(s) && a.CheckExpiry? && a.handler in s.handlers && s.handlers[a.handler].Taken?
    ensures Partitioned(Step(s, a))
  {
    var c := s.handlers[a.handler];
    if a.now > c.review.expiresAt {
      DiscardPartitioned(s, a.handler, a.now);
    } else {
      HandlersUpdate(s.handlers, a.handler, Approved(c.id, c.review, c.upgrade));
    }
  }

  lemma CheckFaithful(s: State, a: Action)
    requires Faithful(s) && a.CheckExpiry? && a.handler in s.handlers && s.handlers[a.handler].Taken?
    ensures Faithful(Step(s, a))
  {
    assert HandlerFaithful(s, s.handlers[a.handler]);
    FaithfulGrows(s, Step(s, a));
  }

  lemma CheckInv(s: State, a: Action)
    requires Inv(s) && a.CheckExpiry? && a.handler in s.handlers && s.handlers[a.handler].Taken?
    ensures Inv(Step(s, a))
  {
    CheckPartitioned(s, a);
    CheckFaithful(s, a);
  }

  lemma EnqueuePartitioned(s: State, a: Action)
    requires Partitioned(s) && a.EnqueueConsented? && a.handler in s.handlers && s.handlers[a.handler].Approved?
    ensures Partitioned(Step(s, a))
  {
    var id := s.handlers[a.handler].id;
    assert id in HandledIds(s.handlers);
    HandlersRemove(s.handlers, a.handler);
    LogStep(s.enqueued, Step(s, a).enqueued[|s.enqueued|]);
    PartsMove(s.created.Keys, PendingIds(s), HandledIds(s.handlers), EnqueuedIds(s.enqueued), DiscardedIds(s), id);
  }

  lemma EnqueueFaithful(s: State, a: Action)
    requires Faithful(s) && a.EnqueueConsented? && a.handler in s.handlers && s.handlers[a.handler].Approved?
    ensures Faithful(Step(s, a))
  {
    FaithfulGrows(s, Step(s, a));
  }

  lemma EnqueueInv(s: State, a: Action)
    requires Inv(s) && a.EnqueueConsented? && a.handler in s.handlers && s.handlers[a.handler].Approved?
    ensures Inv(Step(s, a))
  {
    assert HandlerFaithful(s, s.handlers[a.handler]);
    EnqueuePartitioned(s, a);
    EnqueueFaithful(s, a);
    JustifiedAppend(s.created, s.taken, s.enqueued, Step(s, a).enqueued[|s.enqueued|]);
  }

  lemma ExpirePartitioned(s: State, a: Action)
    requires Partitioned(s) && a.Expire? && a.id in s.reviews && a.now > s.reviews[a.id].expiresAt
    ensures Partitioned(Step(s, a))
  {
    LogStep(s.enqueued, Step(s, a).enqueued[|s.enqueued|]);
    PartsMove(s.created.Keys, PendingIds(s), HandledIds(s.handlers), EnqueuedIds(s.enqueued), DiscardedIds(s), a.id);
    assert PendingIds(Step(s, a)) == PendingIds(s) - {a.id};
  }

  lemma ExpireFaithful(s: State, a: Action)
    requires Faithful(s) && a.Expire? && a.id in s.reviews && a.now > s.reviews[a.id].expiresAt
    ensures Faithful(Step(s, a))
  {
    FaithfulGrows(s, Step(s, a));
  }

  lemma ExpireInv(s: State, a: Action)
    requires Inv(s) && a.Expire? && a.id in s.reviews && a.now > s.reviews[a.id].expiresAt
    ensures Inv(Step(s, a))
  {
    ExpirePartitioned(s, a);
    ExpireFaithful(s, a);
    JustifiedAppend(s.created, s.taken, s.enqueued, Step(s, a).enqueued[|s.enqueued|]);
  }

  lemma InvStep(s: State, a: Action)
    requires Inv(s) && Allowed(s, a)
    ensures Inv(Step(s, a))
  {
    match a
    case Submit(_, _, _, _) => SubmitInv(s, a);
    case OpenReview(_, _, _, _, _) => OpenInv(s, a);
    case TakeReview(_, _, _) => TakeInv(s, a);
    case CheckExpiry(h, _) => if h in s.handlers && s.handlers[h].Taken? { CheckInv(s, a); }
    case EnqueueConsented(h) => if h in s.handlers && s.handlers[h].Approved? { EnqueueInv(s, a); }
    case Expire(id, now) => if id in s.reviews && now > s.reviews[id].expiresAt { ExpireInv(s, a); }
  }

  lemma AllowedPrefix(actions: seq<Action>, n: nat)
    requires AllowedRun(actions) && n <= |actions|
    ensures AllowedRun(actions[..n])
  {
    forall k: nat | k < n ensures Allowed(Run(INITIAL, actions[..n][..k]), actions[..n][k]) {
      assert actions[..n][..k] == actions[..k];
    }
  }

  lemma {:induction false} InvRun(actions: seq<Action>)
    requires AllowedRun(actions)
    ensures Inv(Run(INITIAL, actions))
    decreases |actions|
  {
    if actions != [] {
      var n := |actions| - 1;
      AllowedPrefix(actions, n);
      InvRun(actions[..n]);
      InvStep(Run(INITIAL, actions[..n]), actions[n]);
    }
  }

  // ---------- What every run guarantees ----------

  ghost predicate IsHandled(s: State, id: string) {
    exists h :: h in s.handlers && s.handlers[h].id == id
  }

  ghost predicate IsEnqueued(s: State, id: string) {
    exists i :: 0 <= i < |s.enqueued| && Concerns(s.enqueued[i], id)
  }

  ghost predicate ExactlyOne(a: bool, b: bool, c: bool, d: bool) {
    (a || b || c || d) && !(a && b) && !(a && c) && !(a && d) && !(b && c) && !(b && d) && !(c && d)
  }

  // Every review ever stored is pending, in the hands of a /consent call, enqueued, or discarded late by a
  // /consent call: exactly one of these, and enqueued at most once.
  lemma EveryReviewIsAccountedFor(actions: seq<Action>, id: string)
    requires AllowedRun(actions) && id in Run(INITIAL, actions).created
    ensures var s := Run(INITIAL, actions);
      && ExactlyOne(id in s.reviews, IsHandled(s, id), IsEnqueued(s, id), id in s.discarded)
      && (forall i, j | 0 <= i < j < |s.enqueued| && Concerns(s.enqueued[i], id) :: !Concerns(s.enqueued[j], id))
      && (id in s.discarded ==> DiscardFaithful(s, id))
  {
    var s := Run(INITIAL, actions);
    InvRun(actions);
    EntryIndices(s.enqueued, id);
    assert id in HandledIds(s.handlers) <==> IsHandled(s, id);
  }

  // Action n is the /consent call that found the review pending and took it.
  ghost predicate Took(actions: seq<Action>, n: nat, id: string, upgrade: bool) {
    && n < |actions| && actions[n].TakeReview? && actions[n].id == id && actions[n].upgrade == upgrade
    && id in Run(INITIAL, actions[..n]).reviews
  }

  ghost predicate Answered(s: State, id: string, upgrade: bool) {
    id in s.taken && s.taken[id] == upgrade
  }

  lemma TakenStep(s: State, a: Action, id: string, upgrade: bool)
    requires Faithful(s)
    ensures Answered(Step(s, a), id, upgrade) <==>
            Answered(s, id, upgrade) || (a.TakeReview? && a.id == id && a.upgrade == upgrade && id in s.reviews)
  {}

  lemma TookPrefix(actions: seq<Action>, m: nat, n: nat, id: string, upgrade: bool)
    requires n < m <= |actions|
    ensures Took(actions, n, id, upgrade) <==> Took(actions[..m], n, id, upgrade)
  {
    assert actions[..m][..n] == actions[..n];
  }

  lemma TakenLast(actions: seq<Action>, m: nat, id: string, upgrade: bool)
    requires AllowedRun(actions) && |actions| == m + 1
    ensures Answered(Run(INITIAL, actions), id, upgrade) <==>
            Answered(Run(INITIAL, actions[..m]), id, upgrade) || Took(actions, m, id, upgrade)
  {
    AllowedPrefix(actions, m);
    InvRun(actions[..m]);
    TakenStep(Run(INITIAL, actions[..m]), actions[m], id, upgrade);
  }

  lemma TookLast(actions: seq<Action>, m: nat, id: string, upgrade: bool)
    requires |actions| == m + 1
    ensures (exists n: nat :: Took(actions, n, id, upgrade)) <==>
            (exists n: nat :: Took(actions[..m], n, id, upgrade)) || Took(actions, m, id, upgrade)
  {
    forall n: nat | n < m ensures Took(actions, n, id, upgrade) <==> Took(actions[..m], n, id, upgrade) {
      TookPrefix(actions, m, n, id, upgrade);
    }
  }

  lemma {:induction false} TakenExactly(actions: seq<Action>, id: string, upgrade: bool)
    requires AllowedRun(actions)
    ensures Answered(Run(INITIAL, actions), id, upgrade) <==> exists n: nat :: Took(actions, n, id, upgrade)
    decreases |actions|
  {
    if actions != [] {
      var m := |actions| - 1;
      AllowedPrefix(actions, m);
      TakenExactly(actions[..m], id, upgrade);
      TakenLast(actions, m, id, upgrade);
      TookLast(actions, m, id, upgrade);
    }
  }

  // The class of a request is the one asked for, or what the one call that took its review answered, or personal
  // when no call took it. Nothing else of the review changes on the way.
  lemma ConsentGate(actions: seq<Action>, i: nat)
    requires AllowedRun(actions) && i < |Run(INITIAL, actions).enqueued|
    ensures var s := Run(INITIAL, actions); var e := s.enqueued[i]; var q := e.request;
      match e.cause
      case Submission(asked) => q.priority == asked && asked in {1, 2}
      case Consent(id) =>
        && id in s.created && q.prompt == s.created[id].prompt && q.model == s.created[id].model
        && q.justification == s.created[id].justification
        && (exists n: nat, upgrade :: Took(actions, n, id, upgrade))
        && forall n: nat, upgrade :: Took(actions, n, id, upgrade) ==> q.priority == if upgrade then 1 else 2
      case Timeout(id) =>
        && id in s.created && q.prompt == s.created[id].prompt && q.model == s.created[id].model
        && q.justification == "" && q.priority == 2 && forall n: nat, upgrade :: !Took(actions, n, id, upgrade)
  {
    InvRun(actions);
    var s := Run(INITIAL, actions);
    var e := s.enqueued[i];
    assert Justified(s.created, s.taken, e);
    if !e.cause.Submission? {
      TakenExactly(actions, e.cause.id, true);
      TakenExactly(actions, e.cause.id, false);
    }
  }

  // Class 1 comes from a consent to upgrade and class 2 from a refusal, and nothing else decides.
  lemma ConsentDecides(actions: seq<Action>, i: nat)
    requires AllowedRun(actions) && i < |Run(INITIAL, actions).enqueued|
    requires Run(INITIAL, actions).enqueued[i].cause.Consent?
    ensures var e := Run(INITIAL, actions).enqueued[i];
      && (e.request.priority == 1 <==> exists n: nat :: Took(actions, n, e.cause.id, true))
      && (e.request.priority == 2 <==> exists n: nat :: Took(actions, n, e.cause.id, false))
  {
    ConsentGate(actions, i);
  }

  // The consent comes first: it precedes action n that enqueues the request.
  lemma ConsentComesFirst(actions: seq<Action>, n: nat, e: Entry)
    requires AllowedRun(actions) && n < |actions| && e.cause.Consent?
    requires Step(Run(INITIAL, actions[..n]), actions[n]).enqueued == Run(INITIAL, actions[..n]).enqueued + [e]
    ensures exists k: nat, upgrade ::
      Took(actions[..n], k, e.cause.id, upgrade) && e.request.priority == if upgrade then 1 else 2
  {
    AllowedPrefix(actions, n);
    InvRun(actions[..n]);
    ApprovedEntry(Run(INITIAL, actions[..n]), actions[n], e);
    TakenExactly(actions[..n], e.cause.id, true);
    TakenExactly(actions[..n], e.cause.id, false);
  }

  lemma ApprovedEntry(s: State, a: Action, e: Entry)
    requires Faithful(s) && e.cause.Consent? && Step(s, a).enqueued == s.enqueued + [e]
    ensures e.cause.id in s.taken && e.request.priority == FinalClass(s.taken[e.cause.id])
  {
    var t := Step(s, a);
    assert |t.enqueued| == |s.enqueued| + 1 && t.enqueued[|s.enqueued|] == e;
    assert HandlerFaithful(s, s.handlers[a.handler]);
  }

  // ---------- Where reviews and requests come from ----------

  // Action n opens this review: the contents as submitted, for sixty seconds.
  ghost predicate Opened(actions: seq<Action>, n: nat, id: string, r: Review) {
    && n < |actions| && actions[n].OpenReview? && actions[n].id == id
    && r.prompt == actions[n].prompt && r.model == actions[n].model && r.justification == actions[n].justification
    && r.expiresAt == actions[n].now + 60 * 1_000_000_000
  }

  ghost predicate Holds(s: State, id: string, r: Review) {
    id in s.created && s.created[id] == r
  }

  lemma OpenedLast(actions: seq<Action>, m: nat, id: string, r: Review)
    requires |actions| == m + 1
    ensures (exists n: nat :: Opened(actions, n, id, r)) <==>
            (exists n: nat :: Opened(actions[..m], n, id, r)) || Opened(actions, m, id, r)
  {
    forall n: nat | n < m ensures Opened(actions, n, id, r) <==> Opened(actions[..m], n, id, r) {}
  }

  lemma CreatedStep(s: State, a: Action, id: string, r: Review)
    requires Allowed(s, a)
    ensures Holds(Step(s, a), id, r) <==> Holds(s, id, r) || Opened([a], 0, id, r)
  {}

  // A review is stored exactly as some action opened it.
  lemma {:induction false} CreatedExactly(actions: seq<Action>, id: string, r: Review)
    requires AllowedRun(actions)
    ensures Holds(Run(INITIAL, actions), id, r) <==> exists n: nat :: Opened(actions, n, id, r)
    decreases |actions|
  {
    if actions != [] {
      var m := |actions| - 1;
      AllowedPrefix(actions, m);
      CreatedExactly(actions[..m], id, r);
      CreatedStep(Run(INITIAL, actions[..m]), actions[m], id, r);
      OpenedLast(actions, m, id, r);
    }
  }

  // The requests of the submissions that are not held back, as submitted and in order.
  function Submitted(actions: seq<Action>): seq<Request> {
    if actions == [] then []
    else
      var a := actions[|actions| - 1];
      Submitted(actions[..|actions| - 1]) +
        if a.Submit? then [Request(a.asked, a.prompt, a.model, a.justification, 0)] else []
  }

  function FromSubmissions(log: seq<Entry>): seq<Request> {
    if log == [] then []
    else
      var e := log[|log| - 1];
      FromSubmissions(log[..|log| - 1]) + if e.cause.Submission? then [e.request] else []
  }

  lemma FromSubmissionsStep(s: State, a: Action)
    ensures FromSubmissions(Step(s, a).enqueued) == FromSubmissions(s.enqueued) +
      if a.Submit? then [Request(a.asked, a.prompt, a.model, a.justification, 0)] else []
  {
    var log := Step(s, a).enqueued;
    if log != s.enqueued {
      assert log[..|log| - 1] == s.enqueued;
    }
  }

  // They reach the queue one for one, in order and unchanged.
  lemma {:induction false} SubmissionsConserved(actions: seq<Action>)
    ensures FromSubmissions(Run(INITIAL, actions).enqueued) == Submitted(actions)
    decreases |actions|
  {
    if actions != [] {
      SubmissionsConserved(actions[..|actions| - 1]);
      FromSubmissionsStep(Run(INITIAL, actions[..|actions| - 1]), actions[|actions| - 1]);
    }
  }

  // Action n finds the review pending with its time run out.
  ghost predicate RanOut(actions: seq<Action>, n: nat, id: string) {
    && n < |actions| && actions[n].Expire? && actions[n].id == id
    && RanOutIn(Run(INITIAL, actions[..n]), id, actions[n].now)
  }

  ghost predicate RanOutIn(s: State, id: string, now: int) {
    id in s.reviews && now > s.reviews[id].expiresAt
  }

  ghost predicate TimedOut(log: seq<Entry>, id: string) {
    exists i :: 0 <= i < |log| && log[i].cause == Timeout(id)
  }

  lemma TimedOutStep(s: State, a: Action, id: string)
    ensures TimedOut(Step(s, a).enqueued, id) <==>
            TimedOut(s.enqueued, id) || (a.Expire? && a.id == id && RanOutIn(s, id, a.now))
  {
    var log, n := Step(s, a).enqueued, |s.enqueued|;
    if TimedOut(s.enqueued, id) {
      var i :| 0 <= i < n && s.enqueued[i].cause == Timeout(id);
      assert log[i].cause == Timeout(id);
    }
    if a.Expire? && a.id == id && RanOutIn(s, id, a.now) {
      assert log[n].cause == Timeout(id);
    }
    if TimedOut(log, id) {
      var i :| 0 <= i < |log| && log[i].cause == Timeout(id);
      assert i < n ==> s.enqueued[i].cause == Timeout(id);
    }
  }

  lemma RanOutLast(actions: seq<Action>, m: nat, id: string)
    requires |actions| == m + 1
    ensures (exists n: nat :: RanOut(actions, n, id)) <==>
            (exists n: nat :: RanOut(actions[..m], n, id)) || RanOut(actions, m, id)
  {
    forall n: nat | n < m ensures RanOut(actions, n, id) <==> RanOut(actions[..m], n, id) {
      assert actions[..m][..n] == actions[..n];
    }
  }

  // A review runs by itself exactly when a tick finds it pending and expired.
  lemma {:induction false} TimedOutExactly(actions: seq<Action>, id: string)
    ensures TimedOut(Run(INITIAL, actions).enqueued, id) <==> exists n: nat :: RanOut(actions, n, id)
    decreases |actions|
  {
    if actions != [] {
      var m := |actions| - 1;
      TimedOutExactly(actions[..m], id);
      TimedOutStep(Run(INITIAL, actions[..m]), actions[m], id);
      RanOutLast(actions, m, id);
    }
  }

  // ---------- When a request is lost ----------

  // Action n is the expiry check of a /consent call that holds the review, and finds it expired.
  ghost predicate Late(actions: seq<Action>, n: nat, id: string) {
    && n < |actions| && actions[n].CheckExpiry?
    && LateIn(Run(INITIAL, actions[..n]), actions[n].handler, actions[n].now, id)
  }

  ghost predicate LateIn(s: State, h: nat, now: int, id: string) {
    h in s.handlers && s.handlers[h].Taken? && s.handlers[h].id == id && now > s.handlers[h].review.expiresAt
  }

  lemma DiscardStep(s: State, a: Action, id: string)
    ensures id in Step(s, a).discarded <==> id in s.discarded || (a.CheckExpiry? && LateIn(s, a.handler, a.now, id))
  {}

  lemma LatePrefix(actions: seq<Action>, m: nat, n: nat, id: string)
    requires n < m <= |actions|
    ensures Late(actions, n, id) <==> Late(actions[..m], n, id)
  {
    assert actions[..m][..n] == actions[..n];
  }

  // A review is discarded exactly by a late check.
  lemma {:induction false} DiscardedExactly(actions: seq<Action>, id: string)
    ensures id in Run(INITIAL, actions).discarded <==> exists n: nat :: Late(actions, n, id)
    decreases |actions|
  {
    if actions != [] {
      var m := |actions| - 1;
      DiscardedExactly(actions[..m], id);
      forall n: nat | n < m ensures Late(actions, n, id) <==> Late(actions[..m], n, id) {
        LatePrefix(actions, m, n, id);
      }
      DiscardStep(Run(INITIAL, actions[..m]), actions[m], id);
      assert id in Run(INITIAL, actions).discarded <==>
        id in Run(INITIAL, actions[..m]).discarded || Late(actions, m, id);
    }
  }

  lemma {:induction false} DiscardedStays(actions: seq<Action>, n: nat, id: string)
    requires n <= |actions| && id in Run(INITIAL, actions[..n]).discarded
    ensures id in Run(INITIAL, actions).discarded
    decreases |actions|
  {
    if n == |actions| {
      assert actions[..n] == actions;
    } else {
      assert actions[..|actions| - 1][..n] == actions[..n];
      DiscardedStays(actions[..|actions| - 1], n, id);
      DiscardStep(Run(INITIAL, actions[..|actions| - 1]), actions[|actions| - 1], id);
    }
  }

  // And then it is lost: no longer run ever holds or enqueues it again.
  lemma LostForGood(actions: seq<Action>, n: nat, id: string)
    requires AllowedRun(actions) && n <= |actions| && id in Run(INITIAL, actions[..n]).discarded
    ensures var s := Run(INITIAL, actions);
      id !in s.reviews && !IsHandled(s, id) && !IsEnqueued(s, id) && id in s.discarded
  {
    DiscardedStays(actions, n, id);
    InvRun(actions);
    assert DiscardFaithful(Run(INITIAL, actions), id);
    EveryReviewIsAccountedFor(actions, id);
  }

  lemma RunAppend(actions: seq<Action>, a: Action, s: State)
    requires s == Run(INITIAL, actions)
    ensures Run(INITIAL, actions + [a]) == Step(s, a)
  {
    assert (actions + [a])[..|actions|] == actions;
  }

  // The states after each of the three steps of a /consent call.
  lemma CallSteps(s: State, h: nat, id: string, upgrade: bool, now: int)
    requires id in s.reviews
    ensures var review := s.reviews[id];
      var s1 := Step(s, TakeReview(h, id, upgrade));
      var s2 := Step(s1, CheckExpiry(h, now));
      var s3 := Step(s2, EnqueueConsented(h));
      && s1.handlers == s.handlers[h := Taken(id, review, upgrade)] && id !in s1.reviews && s1.enqueued == s.enqueued
      && (now > review.expiresAt ==> s3 == s2 && s3.enqueued == s.enqueued && id in s3.discarded && id !in s3.reviews)
      && (now <= review.expiresAt ==>
            s3.enqueued == s.enqueued + [Entry(Consent(id), Requested(review, FinalClass(upgrade)))])
  {}

  // After any run, a /consent call for a pending review that meets no other loses the request if and only if the
  // clock has passed the expiry when the call looks at it; otherwise it enqueues the request with the class chosen.
  lemma LateConsentLosesRequest(actions: seq<Action>, h: nat, id: string, upgrade: bool, now: int)
    requires id in Run(INITIAL, actions).reviews
    ensures var s := Run(INITIAL, actions);
      var t := Run(INITIAL, actions + [TakeReview(h, id, upgrade), CheckExpiry(h, now), EnqueueConsented(h)]);
      if now > s.reviews[id].expiresAt then t.enqueued == s.enqueued && id in t.discarded && id !in t.reviews
      else t.enqueued == s.enqueued + [Entry(Consent(id), Request(if upgrade then 1 else 2, s.reviews[id].prompt,
                                                                  s.reviews[id].model, s.reviews[id].justification, 0))]
  {
    var s, a, b, c := Run(INITIAL, actions), TakeReview(h, id, upgrade), CheckExpiry(h, now), EnqueueConsented(h);
    CallSteps(s, h, id, upgrade, now);
    RunAppend(actions, a, s);
    RunAppend(actions + [a], b, Step(s, a));
    RunAppend(actions + [a] + [b], c, Step(Step(s, a), b));
    assert actions + [a] + [b] + [c] == actions + [a, b, c];
  }

  // ---------- The critical sections ----------

  // The requests of these reviews as class 2, in order.
  ghost predicate RunAsPersonal(reviews: map<string, Review>, ids: seq<string>, added: seq<Request>) {
    && |added| == |ids|
    && forall i | 0 <= i < |ids| :: ids[i] in reviews &&
         added[i] == Request(2, reviews[ids[i]].prompt, reviews[ids[i]].model, "", 0)
  }

  // Amid a tick: the reviews looked at are kept, or gone with their ids noted.
  ghost predicate Ticking(start: map<string, Review>, now: int, reviews: map<string, Review>, left: set<string>,
                          ids: seq<string>) {
    && left <= reviews.Keys <= start.Keys
    && (forall id | id in reviews :: reviews[id] == start[id] && (id in left || now <= start[id].expiresAt))
    && (forall id :: id in ids <==> id in start && id !in reviews)
    && (forall id | id in ids :: now > start[id].expiresAt)
    && forall i, j | 0 <= i < j < |ids| :: ids[i] != ids[j]
  }

  lemma TickingStep(start: map<string, Review>, now: int, reviews: map<string, Review>, left: set<string>,
                    ids: seq<string>, id: string)
    requires Ticking(start, now, reviews, left, ids) && id in left
    ensures if now > reviews[id].expiresAt then Ticking(start, now, reviews - {id}, left - {id}, ids + [id])
            else Ticking(start, now, reviews, left - {id}, ids)
  {}

  lemma RunAsPersonalAppend(reviews: map<string, Review>, ids: seq<string>, added: seq<Request>, id: string)
    requires RunAsPersonal(reviews, ids, added) && id in reviews
    ensures RunAsPersonal(reviews, ids + [id], added + [Request(2, reviews[id].prompt, reviews[id].model, "", 0)])
  {}

  class Node {
    var reviews: map<string, Review>
    var requests: seq<Request>  // handed to Enqueue, in order
    ghost var model: State

    ghost predicate Valid()
      reads this
    {
      && model.reviews == reviews && |model.enqueued| == |requests|
      && forall i | 0 <= i < |requests| :: model.enqueued[i].request == requests[i]
    }

    constructor ()
      ensures Valid() && model == INITIAL
    {
      reviews, requests, model := map[], [], INITIAL;
    }

    method Enqueue(request: Request, ghost cause: Cause, ghost after: State)
      requires Valid() && after.enqueued == model.enqueued + [Entry(cause, request)] && after.reviews == reviews
      modifies this`requests, this`model
      ensures Valid() && model == after && requests == old(requests) + [request]
    {
      requests := requests + [request];
      model := after;
    }

    method OpenReview(id: string, prompt: string, llm: string, justification: string, now: int)
      requires Valid()
      modifies this
      ensures Valid() && model == Step(old(model), Action.OpenReview(id, prompt, llm, justification, now))
      ensures requests == old(requests)
      ensures reviews == old(reviews)[id := Review(prompt, llm, justification, now + 60 * 1_000_000_000)]
    {
      reviews := reviews[id := Review(prompt, llm, justification, now + TTL)];
      model := Step(model, Action.OpenReview(id, prompt, llm, justification, now));
    }

    // The end of /submit: a personal request that was found to benefit the community is held back for consent, with a
    // suggestion only; any other is enqueued as asked. No assessment means that it failed.
    method Submit(asked: int, prompt: string, llm: string, justification: string, assessment: Option<bool>,
                  id: string, now: int)
      returns (held: Result<bool, ()>)
      requires Valid()
      modifies this
      ensures Valid() && (held.Err? <==> asked != 1 && asked != 2)
      ensures held.Err? ==> requests == old(requests) && reviews == old(reviews) && model == old(model)
      ensures held == Ok(true) <==> asked == 2 && assessment == Some(true)
      ensures held == Ok(true) ==>
        (&& requests == old(requests)
         && reviews == old(reviews)[id := Review(prompt, llm, justification, now + 60 * 1_000_000_000)]
         && model == Step(old(model), Action.OpenReview(id, prompt, llm, justification, now)))
      ensures held == Ok(false) ==>
        (&& reviews == old(reviews)
         && requests == old(requests) + [Request(asked, prompt, llm, justification, 0)]
         && model == Step(old(model), Action.Submit(asked, prompt, llm, justification)))
    {
      if asked != 1 && asked != 2 {
        return Err(());
      }
      if asked == 2 {
        if assessment == Some(true) {
          OpenReview(id, prompt, llm, justification, now);
          return Ok(true);
        }
      }
      Enqueue(Unstamped(asked, prompt, llm, justification), Submission(asked),
              Step(model, Action.Submit(asked, prompt, llm, justification)));
      return Ok(false);
    }

    // The locked part of /consent: None is answered 404.
    method TakeReview(ghost handler: nat, id: string, upgrade: bool) returns (review: Option<Review>)
      requires Valid()
      modifies this
      ensures Valid() && model == Step(old(model), Action.TakeReview(handler, id, upgrade))
      ensures review == if id in old(reviews) then Some(old(reviews)[id]) else None
      ensures reviews == old(reviews) - {id}
    {
      review := None;
      model := Step(model, Action.TakeReview(handler, id, upgrade));
      if id in reviews {
        review := Some(reviews[id]);
        reviews := reviews - {id};
      }
    }

    // The rest of /consent: 410, or the request is enqueued with the class the user chose.
    method CheckExpiry(ghost handler: nat, review: Review, now: int) returns (expired: bool)
      requires Valid() && handler in model.handlers
      requires model.handlers[handler].Taken? && model.handlers[handler].review == review
      modifies this`model
      ensures Valid() && model == Step(old(model), Action.CheckExpiry(handler, now))
      ensures expired <==> now > review.expiresAt
      ensures expired <==> old(model.handlers[handler].id) in model.discarded
                           && model.handlers == old(model.handlers) - {handler}
    {
      expired := now > review.expiresAt;
      model := Step(model, Action.CheckExpiry(handler, now));
    }

    method EnqueueConsented(ghost handler: nat, ghost id: string, review: Review, upgrade: bool)
      requires Valid() && handler in model.handlers && model.handlers[handler] == Approved(id, review, upgrade)
      modifies this`requests, this`model
      ensures Valid() && model == Step(old(model), Action.EnqueueConsented(handler))
      ensures requests == old(requests)
        + [Request(if upgrade then 1 else 2, review.prompt, review.model, review.justification, 0)]
    {
      var finalClass := Scheduler.PERSONAL;
      if upgrade {
        finalClass := Scheduler.COMMUNITY;
      }
      Enqueue(Unstamped(finalClass, review.prompt, review.model, review.justification), Consent(id),
              Step(model, Action.EnqueueConsented(handler)));
    }

    // The body of the expiry loop for one expired review.
    method ExpireOne(id: string, now: int)
      requires Valid() && id in reviews && now > reviews[id].expiresAt
      modifies this
      ensures Valid() && model == Step(old(model), Expire(id, now)) && reviews == old(reviews) - {id}
      ensures requests == old(requests) + [Request(2, old(reviews)[id].prompt, old(reviews)[id].model, "", 0)]
    {
      var rev := reviews[id];
      requests := requests + [Unstamped(Scheduler.PERSONAL, rev.prompt, rev.model, "")];
      reviews := reviews - {id};
      model := Step(model, Expire(id, now));
    }

    // One tick of the expiry loop: the order of a Go map is arbitrary, and ids records it.
    method Tick(now: int) returns (ghost ids: seq<string>, ghost added: seq<Request>)
      requires Valid()
      modifies this
      ensures Valid()
      ensures reviews == map id | id in old(reviews) && now <= old(reviews)[id].expiresAt :: old(reviews)[id]
      ensures forall id :: id in ids <==> id in old(reviews) && now > old(reviews)[id].expiresAt
      ensures forall i, j | 0 <= i < j < |ids| :: ids[i] != ids[j]
      ensures model == Run(old(model), Expirations(ids, now))
      ensures requests == old(requests) + added && RunAsPersonal(old(reviews), ids, added)
    {
      ids, added := [], [];
      var left := reviews.Keys;
      while left != {}
        invariant Valid() && Ticking(old(reviews), now, reviews, left, ids)
        invariant model == Run(old(model), Expirations(ids, now))
        invariant requests == old(requests) + added && RunAsPersonal(old(reviews), ids, added)
        decreases left
      {
        var id :| id in left;
        TickingStep(old(reviews), now, reviews, left, ids, id);
        left := left - {id};
        if now > reviews[id].expiresAt {
          ExpirationsAppend(old(model), ids, id, now);
          RunAsPersonalAppend(old(reviews), ids, added, id);
          ExpireOne(id, now);
          added := added + [Request(2, old(reviews)[id].prompt, old(reviews)[id].model, "", 0)];
          ids := ids + [id];
        }
      }
    }
  }

  function Expirations(ids: seq<string>, now: int): (actions: seq<Action>)
    ensures |actions| == |ids|
  {
    seq(|ids|, i requires 0 <= i < |ids| => Expire(ids[i], now))
  }

  lemma ExpirationsAppend(s: State, ids: seq<string>, id: string, now: int)
    ensures Run(s, Expirations(ids + [id], now)) == Step(Run(s, Expirations(ids, now)), Expire(id, now))
  {
    assert Expirations(ids + [id], now)[..|ids|] == Expirations(ids, now);
  }
}
