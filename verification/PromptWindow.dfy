/** The window of chat messages that dashboard/app.py sends to the model. */
module PromptWindow {

  datatype Message = Message(role: string, content: string)

  predicate IsSystem(m: Message) {
    m.role == "system"
  }

  // The number of leading system messages.
  function Head(messages: seq<Message>): (n: nat)
    ensures n <= |messages|
    ensures forall i | 0 <= i < n :: messages[i].role == "system"
    ensures n < |messages| ==> messages[n].role != "system"
  {
    if messages == [] || !IsSystem(messages[0]) then 0 else 1 + Head(messages[1..])
  }

  // s[-n:] of Python: the last n entries, all of them for 0, and all but the first -n for a negative n.
  function LastSlice<T>(s: seq<T>, n: int): seq<T> {
    if n > 0 then (if n >= |s| then s else s[|s| - n..])
    else if -n >= |s| then []
    else s[-n..]
  }

  // The last message, with the system message before it.
  function TailLength(rest: seq<Message>): (t: nat)
    ensures t <= |rest|
  {
    if |rest| >= 2 && IsSystem(rest[|rest| - 2]) then 2 else if rest == [] then 0 else 1
  }

  function LastTurns(middle: seq<Message>, keepTurns: int): seq<Message> {
    if |middle| > keepTurns * 2 then LastSlice(middle, keepTurns * 2) else middle
  }

  // Of what follows the leading system messages: the first two before the tail, the last turns, and the tail.
  function Trim(rest: seq<Message>, keepTurns: int): seq<Message> {
    var m := |rest| - TailLength(rest);
    var a := if m < 2 then m else 2;
    rest[..a] + LastTurns(rest[a..m], keepTurns) + rest[m..]
  }

  function Window(messages: seq<Message>, keepTurns: int): seq<Message> {
    var rest := messages[Head(messages)..];
    if messages == [] || |rest| <= keepTurns * 2 + 4 then messages
    else messages[..Head(messages)] + Trim(rest, keepTurns)
  }

  // The tail is the last message, with a system message before it.
  method SplitTail(rest: seq<Message>) returns (body: seq<Message>, tail: seq<Message>)
    ensures body == rest[..|rest| - TailLength(rest)] && tail == rest[|rest| - TailLength(rest)..]
  {
    if |rest| >= 2 && IsSystem(rest[|rest| - 2]) {
      tail, body := rest[|rest| - 2..], rest[..|rest| - 2];
    } else if |rest| >= 1 {
      tail, body := rest[|rest| - 1..], rest[..|rest| - 1];
    } else {
      tail, body := [], [];
    }
  }

  method SplitOpening(body: seq<Message>) returns (opening: seq<Message>, middle: seq<Message>)
    ensures var a := if |body| < 2 then |body| else 2; opening == body[..a] && middle == body[a..]
  {
    opening, middle := body, [];
    if |body| >= 2 {
      opening, middle := body[..2], body[2..];
    }
  }

  lemma PartsOfPrefix<T>(rest: seq<T>, a: nat, m: nat)
    requires a <= m <= |rest|
    ensures rest[..m][..a] == rest[..a] && rest[..m][a..] == rest[a..m]
  {}

  // The part of _window_messages after the loop.
  method TrimRest(rest: seq<Message>, keepTurns: int) returns (trimmed: seq<Message>)
    ensures trimmed == Trim(rest, keepTurns)
  {
    var body, tail := SplitTail(rest);
    var opening, middle := SplitOpening(body);
    PartsOfPrefix(rest, |opening|, |body|);
    var maxMid := keepTurns * 2;
    if |middle| > maxMid {
      middle := LastSlice(middle, maxMid);
    }
    trimmed := opening + middle + tail;
  }

  method WindowMessages(messages: seq<Message>, keepTurns: int) returns (window: seq<Message>)
    ensures window == Window(messages, keepTurns)
  {
    if |messages| == 0 {
      return messages;
    }
    var headSys, i := [], 0;
    while i < |messages| && IsSystem(messages[i])
      invariant i <= |messages| && headSys == messages[..i]
      invariant Head(messages) == i + Head(messages[i..])
    {
      assert messages[i..][1..] == messages[i + 1..];
      headSys := headSys + [messages[i]];
      i := i + 1;
    }
    assert Head(messages) == i;
    var rest := messages[i..];
    if |rest| <= keepTurns * 2 + 4 {
      return messages;
    }
    var trimmed := TrimRest(rest, keepTurns);
    window := headSys + trimmed;
  }

  lemma Rejoin<T>(a: seq<T>, s: seq<T>, n: nat, m: nat)
    requires n <= m <= |s|
    ensures a + s[n..m] + s[m..] == a + s[n..]
  {
    assert s[n..m] + s[m..] == s[n..];
  }

  lemma LastOfMiddle(rest: seq<Message>, m: nat, keepTurns: int)
    requires keepTurns >= 1 && 2 * keepTurns + 2 < m <= |rest|
    ensures LastTurns(rest[2..m], keepTurns) == rest[m - 2 * keepTurns..m]
  {}

  lemma TrimShape(rest: seq<Message>, keepTurns: int, from: nat)
    requires keepTurns >= 1 && |rest| > 2 * keepTurns + 4
    requires from == |rest| - TailLength(rest) - 2 * keepTurns
    ensures Trim(rest, keepTurns) == rest[..2] + rest[from..]
  {
    var m := |rest| - TailLength(rest);
    LastOfMiddle(rest, m, keepTurns);
    Rejoin(rest[..2], rest, from, m);
  }

  // Cutting a stretch out of the part after h cuts it out of the whole.
  lemma CutSuffix<T>(s: seq<T>, h: nat, rest: seq<T>, n: nat, m: nat, to: nat)
    requires h <= |s| && rest == s[h..] && n <= m <= |rest| && to == h + m
    ensures s[..h] + (rest[..n] + rest[m..]) == s[..h + n] + s[to..]
  {
    assert s[..h] + rest[..n] == s[..h + n];
    assert rest[m..] == s[to..];
  }

  lemma WindowIsTrim(messages: seq<Message>, keepTurns: int, h: nat, rest: seq<Message>)
    requires keepTurns >= 1 && h == Head(messages) && rest == messages[h..] && |rest| > 2 * keepTurns + 4
    ensures Window(messages, keepTurns) == messages[..h] + Trim(rest, keepTurns)
  {}

  lemma WindowCut(messages: seq<Message>, keepTurns: int, h: nat, rest: seq<Message>, m: nat, to: nat)
    requires keepTurns >= 1 && h == Head(messages) && rest == messages[h..] && |rest| > 2 * keepTurns + 4
    requires m == |rest| - TailLength(rest) - 2 * keepTurns && to == h + m
    ensures Window(messages, keepTurns) == messages[..h + 2] + messages[to..]
  {
    WindowIsTrim(messages, keepTurns, h, rest);
    TrimShape(rest, keepTurns, m);
    CutSuffix(messages, h, rest, 2, m, to);
  }

  function Tail(messages: seq<Message>): nat
    requires |messages| >= 2
  {
    if IsSystem(messages[|messages| - 2]) then 2 else 1
  }

  lemma TailOfSuffix(messages: seq<Message>, h: nat, rest: seq<Message>)
    requires h <= |messages| && rest == messages[h..] && |rest| >= 2
    ensures TailLength(rest) == Tail(messages)
  {
    assert rest[|rest| - 2] == messages[|messages| - 2];
  }

  lemma CutLength<T>(s: seq<T>, from: nat, to: nat)
    requires from <= to <= |s|
    ensures |s[..from] + s[to..]| == from + |s| - to
  {}

  lemma LongWindow(messages: seq<Message>, keepTurns: int, h: nat, to: int)
    requires keepTurns >= 1 && h == Head(messages) && |messages| - h > 2 * keepTurns + 4
    requires to == |messages| - 2 * keepTurns - Tail(messages)
    ensures Window(messages, keepTurns) == messages[..h + 2] + messages[to..]
  {
    TailOfSuffix(messages, h, messages[h..]);
    WindowCut(messages, keepTurns, h, messages[h..], to - h, to);
  }

  // The window leaves out one stretch of messages and keeps the others in order: the leading system messages and
  // the two after them, and the last turns with the last message and a system message before it. It keeps at most
  // 2 keepTurns + 4 after the leading system messages, and is shorter only when there are more.
  lemma WindowShape(messages: seq<Message>, keepTurns: int) returns (from: nat, to: nat)
    requires keepTurns >= 1
    ensures from <= to <= |messages| && Window(messages, keepTurns) == messages[..from] + messages[to..]
    ensures from < to ==> from == Head(messages) + 2
    ensures from < to ==> |messages| >= 2
    ensures from < to ==>
      |messages| - to == 2 * keepTurns + (if messages[|messages| - 2].role == "system" then 2 else 1)
    ensures from < to <==> |messages| - Head(messages) > 2 * keepTurns + 4
    ensures |Window(messages, keepTurns)| - Head(messages) <= 2 * keepTurns + 4
  {
    var h := Head(messages);
    if |messages| - h <= keepTurns * 2 + 4 {
      from, to := |messages|, |messages|;
      assert messages[..from] + messages[to..] == messages;
    } else {
      from, to := h + 2, |messages| - 2 * keepTurns - Tail(messages);
      LongWindow(messages, keepTurns, h, to);
      CutLength(messages, from, to);
    }
  }

  lemma {:induction false} HeadOfPrefix(messages: seq<Message>, other: seq<Message>)
    requires Head(messages) < |messages| && Head(messages) < |other|
    requires messages[..Head(messages) + 1] == other[..Head(messages) + 1]
    ensures Head(other) == Head(messages)
  {
    assert messages[0] == messages[..Head(messages) + 1][0] == other[0];
    if IsSystem(messages[0]) {
      assert messages[1..][..Head(messages[1..]) + 1] == messages[..Head(messages) + 1][1..];
      assert other[1..][..Head(messages[1..]) + 1] == other[..Head(messages) + 1][1..];
      HeadOfPrefix(messages[1..], other[1..]);
    }
  }

  lemma WindowIdempotent(messages: seq<Message>, keepTurns: int)
    requires keepTurns >= 1
    ensures Window(Window(messages, keepTurns), keepTurns) == Window(messages, keepTurns)
  {
    var from, to := WindowShape(messages, keepTurns);
    if from < to {
      var w, h := Window(messages, keepTurns), Head(messages);
      assert w[..h + 1] == messages[..h + 1];
      HeadOfPrefix(messages, w);
    }
  }

  // The length is kept for every number of turns but none; for none, only when there was nothing to cut.
  lemma WindowBound(messages: seq<Message>, keepTurns: nat)
    ensures |Window(messages, keepTurns)| - Head(messages) <= 2 * keepTurns + 4 <==>
            keepTurns >= 1 || |messages| - Head(messages) <= 4
  {
    if keepTurns == 0 {
      ZeroTurnsKeepsEverything(messages);
    } else {
      var from, to := WindowShape(messages, keepTurns);
    }
  }

  // Keeping no turns keeps all of them, because the slice [-0:] is the whole list.
  lemma ZeroTurnsKeepsEverything(messages: seq<Message>)
    ensures Window(messages, 0) == messages
  {
    var rest := messages[Head(messages)..];
    TrimZero(rest);
    assert messages[..Head(messages)] + rest == messages;
  }

  lemma TrimZero(rest: seq<Message>)
    ensures Trim(rest, 0) == rest
  {
    var m := |rest| - TailLength(rest);
    var a := if m < 2 then m else 2;
    assert LastTurns(rest[a..m], 0) == rest[a..m];
    Rejoin(rest[..a], rest, a, m);
    assert rest[..a] + rest[a..] == rest;
  }
}
