/** Clock consensus: the NTP median and the decision ladder of daemon/ca/clockcheck.go.
    Times are nanoseconds; a Duration is an int64, so a difference saturates. */
module ClockCheck {
  import opened Integers
  import opened Wrappers

  const HOUR := 3_600_000_000_000
  const FIVE_MINUTES := 300_000_000_000

  // t.Sub(u)
  function Sub(t: int, u: int): int {
    if t - u < MIN_INT64 then MIN_INT64
    else if t - u > MAX_INT64 then MAX_INT64
    else t - u
  }

  // absDuration: negating the least int64 gives it back.
  function AbsDuration(d: int): int {
    if d >= 0 || d == MIN_INT64 then d else -d
  }

  // ---------- The median ----------

  ghost predicate Sorted(s: seq<int>) {
    forall i, j | 0 <= i < j < |s| :: s[i] <= s[j]
  }

  // The first n entries are sorted.
  ghost predicate SortedTo(a: array<int>, n: nat)
    requires n <= a.Length
    reads a
  {
    forall i, k | 0 <= i < k < n :: a[i] <= a[k]
  }

  method SwapBack(a: array<int>, j: nat)
    requires 0 < j < a.Length
    modifies a
    ensures a[j] == old(a[j - 1]) && a[j - 1] == old(a[j])
    ensures forall k | 0 <= k < a.Length && k != j && k != j - 1 :: a[k] == old(a[k])
    ensures multiset(a[..]) == multiset(old(a[..]))
  {
    a[j], a[j - 1] := a[j - 1], a[j];
  }

  // The inner loop: entry i sinks to its place.
  method Sink(a: array<int>, i: nat)
    requires i < a.Length && SortedTo(a, i)
    modifies a
    ensures SortedTo(a, i + 1) && multiset(a[..]) == multiset(old(a[..]))
  {
    var j := i;
    while j > 0 && a[j] < a[j - 1]
      invariant 0 <= j <= i
      invariant forall x, y | 0 <= x < y <= i && x != j && y != j :: a[x] <= a[y]
      invariant forall y | j < y <= i :: a[j] <= a[y]
      invariant multiset(a[..]) == multiset(old(a[..]))
    {
      SwapBack(a, j);
      j := j - 1;
    }
  }

  method InsertionSort(a: array<int>)
    modifies a
    ensures Sorted(a[..]) && multiset(a[..]) == multiset(old(a[..]))
  {
    var i := 1;
    while i < a.Length
      invariant 1 <= i && (a.Length == 0 || i <= a.Length)
      invariant SortedTo(a, if a.Length == 0 then 0 else i)
      invariant multiset(a[..]) == multiset(old(a[..]))
    {
      Sink(a, i);
      i := i + 1;
    }
  }

  function Responses(results: seq<Option<int>>): seq<int> {
    if results == [] then []
    else match results[0]
      case None => Responses(results[1..])
      case Some(t) => [t] + Responses(results[1..])
  }

  // The answers, in order.
  lemma {:induction false} ResponsesAppend(results: seq<Option<int>>, t: int)
    ensures Responses(results + [Some(t)]) == Responses(results) + [t]
    ensures Responses(results + [None]) == Responses(results)
  {
    if results != [] {
      assert (results + [Some(t)])[1..] == results[1..] + [Some(t)];
      assert (results + [None])[1..] == results[1..] + [None];
      ResponsesAppend(results[1..], t);
    }
  }

  // The number of readings further than e from the true time.
  function Wrong(times: seq<int>, truth: int, e: int): (n: nat)
    ensures n <= |times|
  {
    if times == [] then 0
    else (if truth - e <= times[0] <= truth + e then 0 else 1) + Wrong(times[1..], truth, e)
  }

  lemma {:induction false} WrongSplit(times: seq<int>, k: nat, truth: int, e: int)
    requires k <= |times|
    ensures Wrong(times, truth, e) == Wrong(times[..k], truth, e) + Wrong(times[k..], truth, e)
  {
    if k > 0 {
      WrongSplit(times[1..], k - 1, truth, e);
      assert times[..k][1..] == times[1..][..k - 1];
      assert times[k..] == times[1..][k - 1..];
    } else {
      assert times[k..] == times;
    }
  }

  lemma {:induction false} AllWrong(times: seq<int>, truth: int, e: int)
    requires forall i | 0 <= i < |times| :: times[i] < truth - e || times[i] > truth + e
    ensures Wrong(times, truth, e) == |times|
  {
    if times != [] {
      AllWrong(times[1..], truth, e);
    }
  }

  lemma WrongRemove(b: seq<int>, i: nat, truth: int, e: int)
    requires i < |b|
    ensures Wrong(b, truth, e) == Wrong([b[i]], truth, e) + Wrong(b[..i] + b[i + 1..], truth, e)
  {
    var rest := b[..i] + b[i + 1..];
    WrongSplit(b, i, truth, e);
    WrongSplit(rest, i, truth, e);
    assert b[i..][1..] == b[i + 1..] && rest[..i] == b[..i] && rest[i..] == b[i + 1..];
  }

  lemma WithoutOne(a: seq<int>, b: seq<int>, i: nat)
    requires a != [] && i < |b| && a[0] == b[i] && multiset(a) == multiset(b)
    ensures multiset(a[1..]) == multiset(b[..i] + b[i + 1..])
  {
    assert a == [a[0]] + a[1..];
    assert b == b[..i] + [b[i]] + b[i + 1..];
    assert multiset(b) == multiset(b[..i] + b[i + 1..]) + multiset{b[i]};
    assert multiset(a[1..]) == multiset(a) - multiset{a[0]};
  }

  lemma {:induction false} WrongPermutation(a: seq<int>, b: seq<int>, truth: int, e: int)
    requires multiset(a) == multiset(b)
    ensures Wrong(a, truth, e) == Wrong(b, truth, e)
    decreases |a|
  {
    assert |multiset(a)| == |a| && |multiset(b)| == |b|;
    if a != [] {
      assert a[0] in multiset(b);
      var i :| 0 <= i < |b| && b[i] == a[0];
      WithoutOne(a, b, i);
      WrongPermutation(a[1..], b[..i] + b[i + 1..], truth, e);
      WrongRemove(b, i, truth, e);
    }
  }

  lemma WrongBelow(sorted: seq<int>, m: nat, truth: int, e: int)
    requires Sorted(sorted) && m < |sorted| && sorted[m] < truth - e
    ensures Wrong(sorted, truth, e) >= m + 1
  {
    assert forall i | 0 <= i <= m :: sorted[i] <= sorted[m];
    AllWrong(sorted[..m + 1], truth, e);
    WrongSplit(sorted, m + 1, truth, e);
  }

  lemma WrongAbove(sorted: seq<int>, m: nat, truth: int, e: int)
    requires Sorted(sorted) && m < |sorted| && sorted[m] > truth + e
    ensures Wrong(sorted, truth, e) >= |sorted| - m
  {
    assert forall i | m <= i < |sorted| :: sorted[m] <= sorted[i];
    AllWrong(sorted[m..], truth, e);
    WrongSplit(sorted, m, truth, e);
  }

  // Fewer than half wrong: the upper median lies between two right readings.
  lemma MedianIsRight(sorted: seq<int>, truth: int, e: int)
    requires Sorted(sorted) && 2 * Wrong(sorted, truth, e) < |sorted|
    ensures truth - e <= sorted[|sorted| / 2] <= truth + e
  {
    var m := |sorted| / 2;
    if sorted[m] < truth - e {
      WrongBelow(sorted, m, truth, e);
    } else if sorted[m] > truth + e {
      WrongAbove(sorted, m, truth, e);
    }
  }

  // The median of the servers that answered, None when none did.
  method QueryNtpMedian(results: seq<Option<int>>) returns (median: Option<int>)
    ensures median == None <==> Responses(results) == []
    ensures median.Some? ==> IsMedian(median.value, Responses(results))
  {
    var times := [];
    for i := 0 to |results|
      invariant times == Responses(results[..i])
    {
      assert results[..i + 1] == results[..i] + [results[i]];
      ResponsesAppend(results[..i], if results[i].Some? then results[i].value else 0);
      if results[i].Some? {
        times := times + [results[i].value];
      }
    }
    assert results[..|results|] == results;
    if |times| == 0 {
      return None;
    }
    var a := new int[|times|](i requires 0 <= i < |times| => times[i]);
    assert a[..] == times;
    InsertionSort(a);
    return Some(a[a.Length / 2]);
  }

  ghost predicate IsMedian(t: int, times: seq<int>) {
    exists sorted: seq<int> :: Sorted(sorted) && multiset(sorted) == multiset(times) && sorted != []
      && sorted[|sorted| / 2] == t
  }

  lemma MedianTolerates(t: int, times: seq<int>, truth: int, e: int)
    requires IsMedian(t, times) && 2 * Wrong(times, truth, e) < |times|
    ensures truth - e <= t <= truth + e
  {
    var sorted: seq<int> :| Sorted(sorted) && multiset(sorted) == multiset(times) && sorted != []
      && sorted[|sorted| / 2] == t;
    assert |multiset(sorted)| == |multiset(times)|;
    WrongPermutation(sorted, times, truth, e);
    MedianIsRight(sorted, truth, e);
  }

  // ---------- The decision ----------

  datatype Source = Build | Persisted | Ntp | Bootstrap | Unverified

  datatype Status = Status(verified: bool, drift: int, source: Source, block: bool)

  // Steps C and D once a reference time is known.
  function Judge(source: Source, now: int, reference: int): Status {
    var drift := AbsDuration(Sub(now, reference));
    if drift > FIVE_MINUTES then Status(false, drift, source, true) else Status(true, drift, source, false)
  }

  // Steps A to D: the build time and the last time seen when they are known and parse, the median, and the
  // answers of the bootstrap servers in order.
  function Check(now: int, build: Option<int>, last: Option<int>, median: Option<int>, bootstrap: seq<Option<int>>)
    : Status
  {
    if build.Some? && now < build.value then Status(false, 0, Build, true)
    else if last.Some? && Sub(last.value, now) > 24 * HOUR then Status(false, 0, Persisted, true)
    else if median.Some? then Judge(Ntp, now, median.value)
    else if Responses(bootstrap) != [] then Judge(Bootstrap, now, Responses(bootstrap)[0])
    else Status(false, 0, Unverified, false)
  }

  // The threshold, in nanoseconds, holds for every pair of times whose difference is a Duration other than the least.
  lemma JudgeExact(source: Source, now: int, reference: int)
    ensures var st := Judge(source, now, reference);
      && st.source == source && (st.verified <==> !st.block)
      && (st.block <==>
            now - reference > 300_000_000_000 || -0x8000_0000_0000_0000 < now - reference < -300_000_000_000)
      && (-0x8000_0000_0000_0000 < now - reference < 0 ==> st.drift == reference - now)
      && (0 <= now - reference <= 0x7fff_ffff_ffff_ffff ==> st.drift == now - reference)
  {}

  // So a bootstrap answer passes as the drift -2^63 exactly when it is 2^63 nanoseconds (some 292 years) ahead, or
  // more. The seconds of an NTP answer have 32 bits and do not reach that far.
  lemma FarFuturePasses(now: int, build: Option<int>, last: Option<int>, bootstrap: seq<Option<int>>)
    requires build.None? || build.value <= now
    requires last.None? || last.value - now <= 86_400_000_000_000
    requires Responses(bootstrap) != []
    ensures Check(now, build, last, None, bootstrap) == Status(true, -0x8000_0000_0000_0000, Bootstrap, false) <==>
            Responses(bootstrap)[0] - now >= 0x8000_0000_0000_0000
  {
    JudgeExact(Bootstrap, now, Responses(bootstrap)[0]);
  }

  // Steps A and B do not stop the check, and the servers' median decides it.
  lemma NtpDecision(now: int, build: Option<int>, last: Option<int>, median: Option<int>,
                    bootstrap: seq<Option<int>>, times: seq<int>, truth: int, e: int)
    requires build.None? || build.value <= now
    requires last.None? || last.value - now <= 86_400_000_000_000
    requires median.Some? && IsMedian(median.value, times) && 2 * Wrong(times, truth, e) < |times|
    requires 0 <= e < 300_000_000_000 && truth + e - now < 0x8000_0000_0000_0000
    ensures var st := Check(now, build, last, median, bootstrap);
      && st.source == Ntp && (st.verified <==> !st.block)
      && (truth - now <= 300_000_000_000 - e && now - truth <= 300_000_000_000 - e ==> !st.block)
      && (truth - now > 300_000_000_000 + e || now - truth > 300_000_000_000 + e ==> st.block)
  {
    MedianTolerates(median.value, times, truth, e);
  }

  // The reference that decides: the median, or else the first bootstrap answer.
  function Reference(median: Option<int>, bootstrap: seq<Option<int>>): Option<int> {
    if median.Some? then median
    else if Responses(bootstrap) != [] then Some(Responses(bootstrap)[0])
    else None
  }

  // Within five minutes, or so far ahead that the difference is no Duration.
  ghost predicate Agrees(now: int, reference: int) {
    -300_000_000_000 <= now - reference <= 300_000_000_000 || now - reference <= -0x8000_0000_0000_0000
  }

  // Not before the build, and at most 24 hours before the last time seen.
  ghost predicate Plausible(now: int, build: Option<int>, last: Option<int>) {
    (build.Some? ==> build.value <= now) && (last.Some? ==> last.value - now <= 86_400_000_000_000)
  }

  // What the ladder as a whole means: verified if and only if steps A and B pass and a reference agrees; not blocked
  // and not verified if and only if they pass and there is no reference.
  lemma CheckMeaning(now: int, build: Option<int>, last: Option<int>, median: Option<int>, bootstrap: seq<Option<int>>)
    ensures var st, r := Check(now, build, last, median, bootstrap), Reference(median, bootstrap);
      && (st.verified <==> Plausible(now, build, last) && r.Some? && Agrees(now, r.value))
      && (!st.verified && !st.block <==> Plausible(now, build, last) && r == None)
      && !(st.verified && st.block)
      && (r == None <==> median == None && forall x | x in bootstrap :: x == None)
  {
    NoResponses(bootstrap);
  }

  // Which step decided.
  lemma CheckSource(now: int, build: Option<int>, last: Option<int>, median: Option<int>, bootstrap: seq<Option<int>>)
    ensures var st := Check(now, build, last, median, bootstrap);
      && (st.source == Build <==> build.Some? && build.value > now)
      && (st.source == Persisted <==> !(build.Some? && build.value > now) && !Plausible(now, build, last))
      && (st.source == Ntp <==> Plausible(now, build, last) && median.Some?)
      && (st.source == Bootstrap <==>
            Plausible(now, build, last) && median == None && exists x | x in bootstrap :: x.Some?)
      && (st.source == Unverified <==> !st.verified && !st.block)
  {
    NoResponses(bootstrap);
  }

  lemma {:induction false} NoResponses(results: seq<Option<int>>)
    ensures Responses(results) == [] <==> forall r | r in results :: r == None
  {
    if results != [] {
      NoResponses(results[1..]);
      if results[0].Some? {
        assert results[0] in results && Responses(results)[0] == results[0].value;
      } else {
        assert forall r :: r in results <==> r == results[0] || r in results[1..];
      }
    }
  }

  // The ladder as code; saved says whether the last time seen is written.
  method CheckSystemClock(now: int, build: Option<int>, last: Option<int>, ntp: seq<Option<int>>,
                          bootstrap: seq<Option<int>>)
    returns (st: Status, saved: bool, ghost median: Option<int>)
    ensures median == None <==> Responses(ntp) == []
    ensures median.Some? ==> IsMedian(median.value, Responses(ntp))
    ensures st == Check(now, build, last, median, bootstrap)
    ensures saved <==> st.verified
  {
    var m := QueryNtpMedian(ntp);
    median := m;
    if build.Some? && now < build.value {
      return Status(false, 0, Build, true), false, m;
    }
    if last.Some? {
      if Sub(last.value, now) > 24 * HOUR {
        return Status(false, 0, Persisted, true), false, m;
      }
    }
    if m.Some? {
      st := Judge(Ntp, now, m.value);
      return st, !st.block, m;
    }
    assert bootstrap[0..] == bootstrap;
    for i := 0 to |bootstrap|
      invariant Responses(bootstrap[i..]) == Responses(bootstrap)
    {
      assert bootstrap[i..][1..] == bootstrap[i + 1..];
      if bootstrap[i].Some? {
        st := Judge(Bootstrap, now, bootstrap[i].value);
        return st, !st.block, m;
      }
    }
    return Status(false, 0, Unverified, false), false, m;
  }
}
