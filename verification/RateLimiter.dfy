/** The sliding-window rate limiter of daemon/scheduler.go. Times and durations are nanoseconds. */
module RateLimiter {

  type Buckets = map<string, seq<int>>

  // The times after the cutoff, in order.
  function Recent(times: seq<int>, cutoff: int): (r: seq<int>)
    ensures |r| <= |times|
  {
    if times == [] then []
    else
      var r := Recent(times[..|times| - 1], cutoff);
      if times[|times| - 1] > cutoff then r + [times[|times| - 1]] else r
  }

  lemma RecentAppend(times: seq<int>, t: int, cutoff: int)
    ensures Recent(times + [t], cutoff) == if t > cutoff then Recent(times, cutoff) + [t] else Recent(times, cutoff)
  {
    assert (times + [t])[..|times|] == times;
  }

  function Bucket(buckets: Buckets, key: string): seq<int> {
    if key in buckets then buckets[key] else []
  }

  datatype Config = Config(limit: int, window: int)

  function Allowed(c: Config, buckets: Buckets, key: string, now: int): bool {
    |Recent(Bucket(buckets, key), now - c.window)| < c.limit
  }

  function AfterAllow(c: Config, buckets: Buckets, key: string, now: int): Buckets {
    var valid := Recent(Bucket(buckets, key), now - c.window);
    buckets[key := if |valid| < c.limit then valid + [now] else valid]
  }

  function AfterPrune(c: Config, buckets: Buckets, now: int): Buckets {
    map key | key in buckets && Recent(buckets[key], now - c.window) != [] :: buckets[key]
  }

  class RateLimiter {
    var buckets: Buckets
    const config: Config

    constructor (limit: int, window: int)
      ensures buckets == map[] && config == Config(limit, window)
    {
      buckets, config := map[], Config(limit, window);
    }

    // valid := bucket[:0] shares its array with the bucket being ranged over: the loop overwrites what it reads.
    method Compact(bucket: seq<int>, cutoff: int) returns (valid: seq<int>)
      ensures valid == Recent(bucket, cutoff)
    {
      var backing, length := bucket, 0;
      for i := 0 to |bucket|
        invariant |backing| == |bucket| && length <= i
        invariant backing[i..] == bucket[i..]
        invariant backing[..length] == Recent(bucket[..i], cutoff)
      {
        var t := backing[i];
        assert t == bucket[i] by {
          assert backing[i..][0] == bucket[i..][0];
        }
        assert bucket[..i + 1] == bucket[..i] + [t];
        RecentAppend(bucket[..i], t, cutoff);
        if t > cutoff {
          ghost var before := backing;
          backing := backing[length := t];
          assert backing[..length + 1] == before[..length] + [t];
          length := length + 1;
        }
      }
      assert bucket[..|bucket|] == bucket;
      valid := backing[..length];
    }

    method Allow(key: string, now: int) returns (allowed: bool)
      modifies this
      ensures allowed <==> Allowed(config, old(buckets), key, now)
      ensures buckets == AfterAllow(config, old(buckets), key, now)
    {
      var cutoff := now - config.window;
      var bucket := if key in buckets then buckets[key] else [];
      var valid := Compact(bucket, cutoff);
      if |valid| >= config.limit {
        buckets := buckets[key := valid];
        return false;
      }
      buckets := buckets[key := valid + [now]];
      return true;
    }

    method IsActive(bucket: seq<int>, cutoff: int) returns (active: bool)
      ensures active <==> Recent(bucket, cutoff) != []
    {
      active := false;
      for i := 0 to |bucket|
        invariant Recent(bucket[..i], cutoff) == []
      {
        assert bucket[..i + 1][..i] == bucket[..i];
        if bucket[i] > cutoff {
          RecentPrefix(bucket, i + 1, cutoff);
          return true;
        }
      }
      assert bucket[..|bucket|] == bucket;
    }

    method PruneEmpty(now: int)
      modifies this
      ensures buckets == AfterPrune(config, old(buckets), now)
    {
      var cutoff := now - config.window;
      var left := buckets.Keys;
      while left != {}
        invariant left <= buckets.Keys <= old(buckets).Keys
        invariant forall key | key in buckets :: buckets[key] == old(buckets)[key]
        invariant forall key | key in old(buckets) && key !in left ::
          (key in buckets <==> Recent(old(buckets)[key], cutoff) != [])
        decreases left
      {
        var key :| key in left;
        left := left - {key};
        var active := IsActive(buckets[key], cutoff);
        if !active {
          buckets := buckets - {key};
        }
      }
    }
  }

  lemma {:induction false} RecentPrefix(times: seq<int>, n: nat, cutoff: int)
    requires n <= |times| && Recent(times[..n], cutoff) != []
    ensures Recent(times, cutoff) != []
  {
    if n == |times| {
      assert times[..n] == times;
    } else {
      assert times[..|times| - 1][..n] == times[..n];
      RecentPrefix(times[..|times| - 1], n, cutoff);
    }
  }

  lemma {:induction false} RecentTwice(times: seq<int>, early: int, late: int)
    requires early <= late
    ensures Recent(Recent(times, early), late) == Recent(times, late)
  {
    if times != [] {
      var init, last := times[..|times| - 1], times[|times| - 1];
      RecentTwice(init, early, late);
      if last > early {
        RecentAppend(Recent(init, early), last, late);
      }
    }
  }

  // ---------- Whole runs ----------

  datatype Op = Allow(key: string, now: int) | Prune(now: int)

  datatype Decision = Decision(key: string, now: int, allowed: bool)

  // The specification keeps, of every key, all its admissions ever.
  datatype State = State(buckets: Buckets, history: Buckets, decisions: seq<Decision>)

  const INITIAL := State(map[], map[], [])

  function Step(c: Config, s: State, op: Op): State {
    match op
    case Allow(key, now) =>
      var allowed := Allowed(c, s.buckets, key, now);
      State(AfterAllow(c, s.buckets, key, now),
            if allowed then s.history[key := Bucket(s.history, key) + [now]] else s.history,
            s.decisions + [Decision(key, now, allowed)])
    case Prune(now) => s.(buckets := AfterPrune(c, s.buckets, now))
  }

  function Run(c: Config, ops: seq<Op>): State
    decreases |ops|
  {
    if ops == [] then INITIAL else Step(c, Run(c, ops[..|ops| - 1]), ops[|ops| - 1])
  }

  // The clock does not go back.
  ghost predicate Monotone(ops: seq<Op>) {
    forall i, j | 0 <= i < j < |ops| :: ops[i].now <= ops[j].now
  }

  ghost predicate Until(ops: seq<Op>, now: int) {
    forall i | 0 <= i < |ops| :: ops[i].now <= now
  }

  // The bucket of a key holds at least the admissions that still matter.
  ghost predicate Represents(c: Config, s: State, key: string, now: int) {
    Recent(Bucket(s.buckets, key), now - c.window) == Recent(Bucket(s.history, key), now - c.window)
  }

  lemma RepresentsLater(c: Config, s: State, key: string, now: int, later: int)
    requires Represents(c, s, key, now) && now <= later
    ensures Represents(c, s, key, later)
  {
    RecentTwice(Bucket(s.buckets, key), now - c.window, later - c.window);
    RecentTwice(Bucket(s.history, key), now - c.window, later - c.window);
  }

  // Compacting, and then admitting or not, on a bucket and on the history it stands for.
  lemma AdmitBoth(bucket: seq<int>, history: seq<int>, cutoff: int, now: int)
    requires Recent(bucket, cutoff) == Recent(history, cutoff)
    ensures Recent(Recent(bucket, cutoff), cutoff) == Recent(history, cutoff)
    ensures Recent(Recent(bucket, cutoff) + [now], cutoff) == Recent(history + [now], cutoff)
  {
    RecentTwice(bucket, cutoff, cutoff);
    RecentAppend(Recent(bucket, cutoff), now, cutoff);
    RecentAppend(history, now, cutoff);
  }

  lemma RepresentsStep(c: Config, s: State, op: Op, key: string)
    requires Represents(c, s, key, op.now)
    ensures Represents(c, Step(c, s, op), key, op.now)
  {
    match op
    case Allow(k, now) =>
      if k == key {
        AdmitBoth(Bucket(s.buckets, key), Bucket(s.history, key), now - c.window, now);
      }
    case Prune(_) =>
  }

  lemma {:induction false} RunRepresents(c: Config, ops: seq<Op>, key: string, now: int)
    requires Monotone(ops) && Until(ops, now)
    ensures Represents(c, Run(c, ops), key, now)
    decreases |ops|
  {
    if ops != [] {
      var n := |ops| - 1;
      RunRepresents(c, ops[..n], key, ops[n].now);
      RepresentsStep(c, Run(c, ops[..n]), ops[n], key);
      RepresentsLater(c, Run(c, ops), key, ops[n].now, now);
    }
  }

  // A decision counts the whole history of its key, whatever was compacted or pruned on the way.
  lemma DecisionCountsHistory(c: Config, ops: seq<Op>, key: string, now: int)
    requires Monotone(ops) && Until(ops, now)
    ensures Allowed(c, Run(c, ops).buckets, key, now) <==> Allowed(c, Run(c, ops).history, key, now)
  {
    RunRepresents(c, ops, key, now);
  }

  // ---------- The bound ----------

  // The admissions in the half-open interval (x - window, x].
  function Within(times: seq<int>, window: int, x: int): (r: seq<int>)
    ensures |r| <= |times|
  {
    if times == [] then []
    else
      var last, r := times[|times| - 1], Within(times[..|times| - 1], window, x);
      if x - window < last <= x then r + [last] else r
  }

  lemma WithinAppend(times: seq<int>, t: int, window: int, x: int)
    ensures Within(times + [t], window, x)
         == if x - window < t <= x then Within(times, window, x) + [t] else Within(times, window, x)
  {
    assert (times + [t])[..|times|] == times;
  }

  lemma {:induction false} WithinIsRecent(times: seq<int>, window: int, x: int, cutoff: int)
    requires cutoff <= x - window
    ensures |Within(times, window, x)| <= |Recent(times, cutoff)|
  {
    if times != [] {
      WithinIsRecent(times[..|times| - 1], window, x, cutoff);
    }
  }

  lemma AdmitWithin(times: seq<int>, now: int, window: int, x: int)
    ensures |Within(times + [now], window, x)| <= |Within(times, window, x)|
         || |Within(times + [now], window, x)| <= |Recent(times, now - window)| + 1
  {
    WithinAppend(times, now, window, x);
    if x - window < now <= x {
      WithinIsRecent(times, window, x, now - window);
    }
  }

  // A negative limit admits nothing.
  ghost predicate Bounded(c: Config, s: State, key: string, x: int) {
    |Within(Bucket(s.history, key), c.window, x)| <= if c.limit < 0 then 0 else c.limit
  }

  lemma BoundStep(c: Config, s: State, key: string, now: int, x: int)
    requires Allowed(c, s.buckets, key, now) <==> Allowed(c, s.history, key, now)
    requires Bounded(c, s, key, x)
    ensures Bounded(c, Step(c, s, Allow(key, now)), key, x)
  {
    if Allowed(c, s.buckets, key, now) {
      AdmitWithin(Bucket(s.history, key), now, c.window, x);
      assert Bucket(Step(c, s, Allow(key, now)).history, key) == Bucket(s.history, key) + [now];
    }
  }

  // In no window are more than limit requests of a key admitted.
  lemma {:induction false} Bound(c: Config, ops: seq<Op>, key: string, x: int)
    requires Monotone(ops)
    ensures Bounded(c, Run(c, ops), key, x)
    decreases |ops|
  {
    if ops != [] {
      var n := |ops| - 1;
      var op, s := ops[n], Run(c, ops[..n]);
      Bound(c, ops[..n], key, x);
      if op == Allow(key, op.now) {
        DecisionCountsHistory(c, ops[..n], key, op.now);
        BoundStep(c, s, key, op.now, x);
      } else {
        assert Bucket(Step(c, s, op).history, key) == Bucket(s.history, key);
      }
    }
  }

  // No admission lies in the future.
  ghost predicate Past(times: seq<int>, now: int) {
    forall i | 0 <= i < |times| :: times[i] <= now
  }

  lemma {:induction false} RecentIsWithin(times: seq<int>, window: int, now: int)
    requires Past(times, now)
    ensures Recent(times, now - window) == Within(times, window, now)
  {
    if times != [] {
      RecentIsWithin(times[..|times| - 1], window, now);
    }
  }

  lemma {:induction false} HistoryIsPast(c: Config, ops: seq<Op>, key: string, now: int)
    requires Until(ops, now)
    ensures Past(Bucket(Run(c, ops).history, key), now)
    decreases |ops|
  {
    if ops != [] {
      var n := |ops| - 1;
      HistoryIsPast(c, ops[..n], key, now);
      var s, op := Run(c, ops[..n]), ops[n];
      assert Bucket(Step(c, s, op).history, key) == Bucket(s.history, key)
          || Bucket(Step(c, s, op).history, key) == Bucket(s.history, key) + [op.now];
    }
  }

  lemma RejectionInState(c: Config, s: State, key: string, now: int)
    requires Allowed(c, s.buckets, key, now) <==> Allowed(c, s.history, key, now)
    requires Bounded(c, s, key, now) && Past(Bucket(s.history, key), now) && c.limit >= 0
    ensures !Allowed(c, s.buckets, key, now) <==> |Within(Bucket(s.history, key), c.window, now)| == c.limit
  {
    RecentIsWithin(Bucket(s.history, key), c.window, now);
  }

  // A rejection means that exactly limit requests were admitted in the window that ends now.
  lemma RejectionIsExact(c: Config, ops: seq<Op>, key: string, now: int)
    requires Monotone(ops) && Until(ops, now) && c.limit >= 0
    ensures !Allowed(c, Run(c, ops).buckets, key, now) <==>
            |Within(Bucket(Run(c, ops).history, key), c.window, now)| == c.limit
  {
    DecisionCountsHistory(c, ops, key, now);
    Bound(c, ops, key, now);
    HistoryIsPast(c, ops, key, now);
    RejectionInState(c, Run(c, ops), key, now);
  }

  lemma {:induction false} RecentEmpty(times: seq<int>, cutoff: int)
    ensures Recent(times, cutoff) == [] <==> forall i | 0 <= i < |times| :: times[i] <= cutoff
  {
    if times != [] {
      RecentEmpty(times[..|times| - 1], cutoff);
    }
  }

  // What pruning removes: exactly the keys without an admission in the window.
  lemma PrunedExactly(c: Config, buckets: Buckets, now: int, key: string)
    ensures key in AfterPrune(c, buckets, now) <==>
            key in buckets && exists i :: 0 <= i < |buckets[key]| && buckets[key][i] > now - c.window
    ensures key in AfterPrune(c, buckets, now) ==> AfterPrune(c, buckets, now)[key] == buckets[key]
  {
    if key in buckets {
      RecentEmpty(buckets[key], now - c.window);
    }
  }

  lemma {:induction false} RecentMembers(times: seq<int>, cutoff: int, t: int)
    ensures multiset(Recent(times, cutoff))[t] == if t > cutoff then multiset(times)[t] else 0
  {
    if times != [] {
      var init, last := times[..|times| - 1], times[|times| - 1];
      assert times == init + [last];
      RecentMembers(init, cutoff, t);
    }
  }

  // What a decision stores: the admissions in the window, and the new one last if there is one.
  lemma StoredExactly(c: Config, buckets: Buckets, key: string, now: int)
    ensures key in AfterAllow(c, buckets, key, now)
    ensures AfterAllow(c, buckets, key, now)[key]
         == Recent(Bucket(buckets, key), now - c.window) + if Allowed(c, buckets, key, now) then [now] else []
  {}

  // Other keys stay as they are.
  lemma OthersStay(c: Config, buckets: Buckets, key: string, now: int, other: string)
    requires other != key
    ensures other in AfterAllow(c, buckets, key, now) <==> other in buckets
    ensures other in buckets ==> AfterAllow(c, buckets, key, now)[other] == buckets[other]
  {}

  // ---------- Pruning is transparent ----------

  function WithoutPrunes(ops: seq<Op>): (r: seq<Op>)
    ensures |r| <= |ops|
  {
    if ops == [] then []
    else
      var r := WithoutPrunes(ops[..|ops| - 1]);
      if ops[|ops| - 1].Allow? then r + [ops[|ops| - 1]] else r
  }

  lemma {:induction false} WithoutPrunesMonotone(ops: seq<Op>, now: int)
    requires Monotone(ops) && Until(ops, now)
    ensures Monotone(WithoutPrunes(ops)) && Until(WithoutPrunes(ops), now)
  {
    if ops != [] {
      WithoutPrunesMonotone(ops[..|ops| - 1], ops[|ops| - 1].now);
    }
  }

  lemma RunAppend(c: Config, ops: seq<Op>, op: Op)
    ensures Run(c, ops + [op]) == Step(c, Run(c, ops), op)
  {
    assert (ops + [op])[..|ops|] == ops;
  }

  ghost predicate Agree(s: State, u: State) {
    s.decisions == u.decisions && s.history == u.history
  }

  lemma AgreeStep(c: Config, s: State, u: State, op: Op)
    requires Agree(s, u)
    requires op.Allow? ==> (Allowed(c, s.buckets, op.key, op.now) <==> Allowed(c, u.buckets, op.key, op.now))
    ensures Agree(Step(c, s, op), if op.Allow? then Step(c, u, op) else u)
  {}

  // Two runs that agree decide the same.
  lemma SameDecision(c: Config, ops: seq<Op>, ops': seq<Op>, key: string, now: int)
    requires Monotone(ops) && Until(ops, now) && Monotone(ops') && Until(ops', now)
    requires Agree(Run(c, ops), Run(c, ops'))
    ensures Allowed(c, Run(c, ops).buckets, key, now) <==> Allowed(c, Run(c, ops').buckets, key, now)
  {
    DecisionCountsHistory(c, ops, key, now);
    DecisionCountsHistory(c, ops', key, now);
  }

  // One more step: on the other side, only if it is a decision.
  lemma AgreeLast(c: Config, s: State, unpruned: seq<Op>, op: Op)
    requires Agree(s, Run(c, unpruned))
    requires op.Allow? ==>
      (Allowed(c, s.buckets, op.key, op.now) <==> Allowed(c, Run(c, unpruned).buckets, op.key, op.now))
    ensures Agree(Step(c, s, op), Run(c, if op.Allow? then unpruned + [op] else unpruned))
  {
    AgreeStep(c, s, Run(c, unpruned), op);
    RunAppend(c, unpruned, op);
  }

  lemma WithoutPrunesLast(ops: seq<Op>, n: nat)
    requires |ops| == n + 1
    ensures WithoutPrunes(ops) == if ops[n].Allow? then WithoutPrunes(ops[..n]) + [ops[n]] else WithoutPrunes(ops[..n])
  {}

  lemma DecisionUnpruned(c: Config, ops: seq<Op>, n: nat)
    requires Monotone(ops) && |ops| == n + 1 && Agree(Run(c, ops[..n]), Run(c, WithoutPrunes(ops[..n])))
    ensures var key, now := if ops[n].Allow? then ops[n].key else "", ops[n].now;
      Allowed(c, Run(c, ops[..n]).buckets, key, now) <==> Allowed(c, Run(c, WithoutPrunes(ops[..n])).buckets, key, now)
  {
    WithoutPrunesMonotone(ops[..n], ops[n].now);
    SameDecision(c, ops[..n], WithoutPrunes(ops[..n]), if ops[n].Allow? then ops[n].key else "", ops[n].now);
  }

  // Leaving the prunes out of a run changes no decision and no admission.
  lemma {:induction false} PruningIsTransparent(c: Config, ops: seq<Op>)
    requires Monotone(ops)
    ensures Agree(Run(c, ops), Run(c, WithoutPrunes(ops)))
    decreases |ops|
  {
    if ops != [] {
      var n := |ops| - 1;
      PruningIsTransparent(c, ops[..n]);
      DecisionUnpruned(c, ops, n);
      AgreeLast(c, Run(c, ops[..n]), WithoutPrunes(ops[..n]), ops[n]);
      WithoutPrunesLast(ops, n);
    }
  }
}
