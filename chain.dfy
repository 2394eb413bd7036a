/** The meaning of the middleware chain of context.go: a handler is a
    script of actions, and the three functions Next, Loop and Run give the
    cursor, status code and event trace that Context.Next, its loop and a
    handler's body leave behind. The ordering and short-circuit facts the
    chain promises are proved about these functions. */
module Chain {

  /** What a handler does, in order: record a marker (any code of its
      own), call c.Next(), call c.Fail(code, message), or respond with
      c.String / c.JSON / c.Data (all of which set the status code). */
  datatype Action = Mark(id: int) | CallNext | Fail(code: int, message: string) | Reply(code: int, body: string)

  type Handler = seq<Action>

  /** What can be observed of a run: the chain loop starting handler
      `index`, a marker, a response and a failure response. */
  datatype Event = Started(index: int) | Marked(id: int) | Replied(code: int, body: string) | Failed(code: int, message: string)

  /** The part of a Context the chain changes. */
  datatype Exec = Exec(index: int, status: int, trace: seq<Event>)

  /** How far the cursor k is from the end of a chain of n handlers. */
  function Rank(n: nat, k: int): nat {
    if k < n then n - k else 0
  }

  /** c.Next(): advance the cursor, then run the loop. */
  function Next(hs: seq<Handler>, s: Exec): (r: Exec)
    requires s.index >= -1
    ensures r.index >= |hs| && r.index >= s.index + 1
    decreases Rank(|hs|, s.index + 1), 2, 0
  {
    Loop(hs, s.(index := s.index + 1))
  }

  /** `for ; c.index < s; c.index++ { c.handlers[c.index](c) }`: the
      cursor is re-read after every handler returns. */
  function Loop(hs: seq<Handler>, s: Exec): (r: Exec)
    requires s.index >= 0
    ensures r.index >= |hs| && r.index >= s.index
    decreases Rank(|hs|, s.index), 1, 0
  {
    if s.index < |hs| then
      var i := s.index;
      var after := Run(hs, hs[i], 0, i, s.(trace := s.trace + [Started(i)]));
      Loop(hs, after.(index := after.index + 1))
    else
      s
  }

  /** The body of handler `h` from action `pos`, for a handler entered
      with the cursor at `lo`. The cursor never falls below where it was
      unless it was past the end of the chain, and then only down to the
      end; so it never falls below `lo` unless that is past the end. */
  function Run(hs: seq<Handler>, h: Handler, pos: nat, lo: int, s: Exec): (r: Exec)
    requires s.index >= -1 && (lo <= s.index || s.index >= |hs|) && pos <= |h|
    ensures r.index >= lo || r.index >= |hs|
    ensures r.index >= s.index || r.index >= |hs|
    ensures s.index >= |hs| ==> r.index >= |hs|
    decreases Rank(|hs|, lo), if lo < |hs| then 0 else 3, |h| - pos
  {
    if pos == |h| then s
    else
      var t := match h[pos]
        case Mark(id) => s.(trace := s.trace + [Marked(id)])
        case CallNext => Next(hs, s)
        case Fail(code, message) => Exec(|hs|, code, s.trace + [Failed(code, message)])
        case Reply(code, body) => s.(status := code, trace := s.trace + [Replied(code, body)]);
      Run(hs, h, pos + 1, lo, t)
  }

  // ---------------------------------------------------------------------
  // Without Fail, every handler is started exactly once, in index order

  /** The handler positions in the order the loop started them. */
  function Starts(trace: seq<Event>): seq<int>
    decreases |trace|
  {
    if |trace| == 0 then []
    else
      var last := trace[|trace| - 1];
      Starts(trace[..|trace| - 1]) + (if last.Started? then [last.index] else [])
  }

  lemma {:induction false} StartsAppend(trace: seq<Event>, e: Event)
    ensures Starts(trace + [e]) == Starts(trace) + (if e.Started? then [e.index] else [])
  {
    assert (trace + [e])[..|trace|] == trace;
  }

  /** a, a + 1, ..., n - 1. */
  function Range(a: int, n: int): seq<int>
    decreases n - a
  {
    if a >= n then [] else [a] + Range(a + 1, n)
  }

  predicate NoFail(h: Handler) {
    forall i :: 0 <= i < |h| ==> !h[i].Fail?
  }

  predicate ChainNoFail(hs: seq<Handler>) {
    forall j :: 0 <= j < |hs| ==> NoFail(hs[j])
  }

  /** A call of Next starts every later handler, in order, before it
      returns; so code after a nested Next call runs only once all later
      handlers have been started. */
  lemma {:induction false} NextStarts(hs: seq<Handler>, s: Exec)
    requires ChainNoFail(hs) && s.index >= -1
    ensures Starts(Next(hs, s).trace) == Starts(s.trace) + Range(s.index + 1, |hs|)
    decreases Rank(|hs|, s.index + 1), 2, 0
  {
    LoopStarts(hs, s.(index := s.index + 1));
  }

  lemma {:induction false} LoopStarts(hs: seq<Handler>, s: Exec)
    requires ChainNoFail(hs) && s.index >= 0
    ensures Starts(Loop(hs, s).trace) == Starts(s.trace) + Range(s.index, |hs|)
    decreases Rank(|hs|, s.index), 1, 0
  {
    if s.index < |hs| {
      var i := s.index;
      var entered := s.(trace := s.trace + [Started(i)]);
      StartsAppend(s.trace, Started(i));
      var after := Run(hs, hs[i], 0, i, entered);
      RunStarts(hs, hs[i], 0, i, entered);
      var resumed := after.(index := after.index + 1);
      LoopStarts(hs, resumed);
      assert Loop(hs, s) == Loop(hs, resumed);
      RangeStep(Starts(s.trace), i, |hs|, Starts(after.trace), after.index, Starts(Loop(hs, s).trace));
    }
  }

  /** The bookkeeping after a nested Next call: it started every later
      handler, and left the cursor past the end, where the rest of the
      body starts no more. */
  lemma {:induction false} AfterNext(pre: seq<int>, a: int, n: int, mid: seq<int>, k: int, fin: seq<int>, m: int)
    requires mid == pre + Range(a, n) && k >= n
    requires (m == k && fin == mid) || (m >= n && fin == mid + Range(k + 1, n))
    ensures m >= n && fin == pre + Range(a, n)
  {
    assert Range(k + 1, n) == [];
  }

  /** The bookkeeping of one round of the loop: handler i starts, its body
      either starts nothing or starts i + 1 .. n - 1, and the loop goes
      on from wherever the cursor then is. */
  lemma {:induction false} RangeStep(pre: seq<int>, i: int, n: int, mid: seq<int>, k: int, fin: seq<int>)
    requires i < n
    requires (k == i && mid == pre + [i]) || (k >= n && mid == pre + [i] + Range(i + 1, n))
    requires fin == mid + Range(k + 1, n)
    ensures fin == pre + Range(i, n)
  {
    assert Range(i, n) == [i] + Range(i + 1, n);
    if k >= n {
      assert Range(k + 1, n) == [];
    }
  }

  /** A handler body either leaves the cursor where it was and starts
      nothing, or (through a Next call) starts every later handler. */
  lemma {:induction false} RunStarts(hs: seq<Handler>, h: Handler, pos: nat, lo: int, s: Exec)
    requires ChainNoFail(hs) && NoFail(h)
    requires -1 <= lo < |hs| && lo <= s.index && pos <= |h|
    requires s.index == lo || s.index >= |hs|
    ensures var r := Run(hs, h, pos, lo, s);
      || (r.index == s.index && Starts(r.trace) == Starts(s.trace))
      || (r.index >= |hs| && Starts(r.trace) == Starts(s.trace) + Range(s.index + 1, |hs|))
    decreases Rank(|hs|, lo), 0, |h| - pos
  {
    if pos < |h| {
      match h[pos] {
        case Mark(id) =>
          var t := s.(trace := s.trace + [Marked(id)]);
          StartsAppend(s.trace, Marked(id));
          assert Starts(t.trace) == Starts(s.trace);
          assert Run(hs, h, pos, lo, s) == Run(hs, h, pos + 1, lo, t);
          RunStarts(hs, h, pos + 1, lo, t);
        case CallNext =>
          var t := Next(hs, s);
          NextStarts(hs, s);
          assert Run(hs, h, pos, lo, s) == Run(hs, h, pos + 1, lo, t);
          RunStarts(hs, h, pos + 1, lo, t);
          var r := Run(hs, h, pos + 1, lo, t);
          AfterNext(Starts(s.trace), s.index + 1, |hs|, Starts(t.trace), t.index, Starts(r.trace), r.index);
        case Reply(code, body) =>
          var t := s.(status := code, trace := s.trace + [Replied(code, body)]);
          StartsAppend(s.trace, Replied(code, body));
          assert Starts(t.trace) == Starts(s.trace);
          assert Run(hs, h, pos, lo, s) == Run(hs, h, pos + 1, lo, t);
          RunStarts(hs, h, pos + 1, lo, t);
      }
    }
  }

  /** Without Fail, the outermost Next starts handlers 0, 1, ..., n - 1,
      each exactly once, even when some handler never calls Next. */
  lemma {:induction false} EveryHandlerRunsOnce(hs: seq<Handler>, status: int)
    requires ChainNoFail(hs)
    ensures Starts(Next(hs, Exec(-1, status, [])).trace) == Range(0, |hs|)
  {
    NextStarts(hs, Exec(-1, status, []));
  }

  // ---------------------------------------------------------------------
  // Onion order

  /** Every handler marks, calls Next, marks again. */
  predicate OnionShaped(hs: seq<Handler>) {
    forall j :: 0 <= j < |hs| ==> |hs[j]| == 3 && hs[j][0].Mark? && hs[j][1] == CallNext && hs[j][2].Mark?
  }

  /** The trace such a chain produces from handler i: the code before the
      nested Next of each handler runs in chain order, the code after it
      in reverse order. */
  function Onion(hs: seq<Handler>, i: nat): seq<Event>
    requires OnionShaped(hs)
    decreases |hs| - i
  {
    if i >= |hs| then []
    else [Started(i), Marked(hs[i][0].id)] + Onion(hs, i + 1) + [Marked(hs[i][2].id)]
  }

  lemma {:induction false} LoopOnion(hs: seq<Handler>, s: Exec)
    requires OnionShaped(hs) && s.index >= 0
    ensures Loop(hs, s).trace == s.trace + Onion(hs, s.index)
    decreases |hs| - s.index
  {
    if s.index < |hs| {
      var i := s.index;
      var h := hs[i];
      var s1 := s.(trace := s.trace + [Started(i)]);
      var s2 := s1.(trace := s1.trace + [Marked(h[0].id)]);
      var s3 := Next(hs, s2);
      LoopOnion(hs, s2.(index := i + 1));
      var s4 := s3.(trace := s3.trace + [Marked(h[2].id)]);
      assert Run(hs, h, 0, i, s1) == Run(hs, h, 1, i, s2);
      assert Run(hs, h, 1, i, s2) == Run(hs, h, 2, i, s3);
      assert Run(hs, h, 2, i, s3) == s4;
      assert Loop(hs, s4.(index := s4.index + 1)) == s4.(index := s4.index + 1);
    }
  }

  /** Onion nesting of the whole chain, driven by one outermost Next. */
  lemma {:induction false} OnionOrder(hs: seq<Handler>, status: int)
    requires OnionShaped(hs)
    ensures Next(hs, Exec(-1, status, [])).trace == Onion(hs, 0)
  {
    LoopOnion(hs, Exec(0, status, []));
  }

  // ---------------------------------------------------------------------
  // Fail short-circuits the chain

  predicate HasFailed(trace: seq<Event>) {
    exists i :: 0 <= i < |trace| && trace[i].Failed?
  }

  /** No handler is started after a failure response. */
  predicate NoStartAfterFail(trace: seq<Event>) {
    forall i, k :: 0 <= i < k < |trace| && trace[i].Failed? ==> !trace[k].Started?
  }

  /** The invariant every step keeps: once a failure is recorded, the
      cursor is at or past the end of the chain. */
  predicate Settled(hs: seq<Handler>, s: Exec) {
    NoStartAfterFail(s.trace) && (HasFailed(s.trace) ==> s.index >= |hs|)
  }

  lemma {:induction false} SettledAppend(hs: seq<Handler>, s: Exec, e: Event, index: int)
    requires Settled(hs, s) && !e.Failed? && index >= s.index
    requires e.Started? ==> s.index < |hs|
    ensures Settled(hs, Exec(index, s.status, s.trace + [e]))
    ensures forall status :: Settled(hs, Exec(index, status, s.trace + [e]))
  {
    var t := s.trace + [e];
    assert forall i :: 0 <= i < |s.trace| ==> t[i] == s.trace[i];
    if HasFailed(t) {
      var i :| 0 <= i < |t| && t[i].Failed?;
      assert i < |s.trace| && s.trace[i].Failed?;
    }
  }

  lemma {:induction false} NextSettled(hs: seq<Handler>, s: Exec)
    requires s.index >= -1 && Settled(hs, s)
    ensures Settled(hs, Next(hs, s))
    decreases Rank(|hs|, s.index + 1), 2, 0
  {
    LoopSettled(hs, s.(index := s.index + 1));
  }

  lemma {:induction false} LoopSettled(hs: seq<Handler>, s: Exec)
    requires s.index >= 0 && Settled(hs, s)
    ensures Settled(hs, Loop(hs, s))
    decreases Rank(|hs|, s.index), 1, 0
  {
    if s.index < |hs| {
      var i := s.index;
      SettledAppend(hs, s, Started(i), i);
      var entered := s.(trace := s.trace + [Started(i)]);
      RunSettled(hs, hs[i], 0, i, entered);
      var after := Run(hs, hs[i], 0, i, entered);
      LoopSettled(hs, after.(index := after.index + 1));
    }
  }

  lemma {:induction false} RunSettled(hs: seq<Handler>, h: Handler, pos: nat, lo: int, s: Exec)
    requires s.index >= -1 && (lo <= s.index || s.index >= |hs|) && pos <= |h|
    requires Settled(hs, s)
    ensures Settled(hs, Run(hs, h, pos, lo, s))
    decreases Rank(|hs|, lo), if lo < |hs| then 0 else 3, |h| - pos
  {
    if pos < |h| {
      match h[pos] {
        case Mark(id) =>
          SettledAppend(hs, s, Marked(id), s.index);
          RunSettled(hs, h, pos + 1, lo, s.(trace := s.trace + [Marked(id)]));
        case CallNext =>
          NextSettled(hs, s);
          RunSettled(hs, h, pos + 1, lo, Next(hs, s));
        case Fail(code, message) =>
          var t := s.trace + [Failed(code, message)];
          assert forall i :: 0 <= i < |s.trace| ==> t[i] == s.trace[i];
          assert t[|s.trace|].Failed?;
          RunSettled(hs, h, pos + 1, lo, Exec(|hs|, code, t));
        case Reply(code, body) =>
          SettledAppend(hs, s, Replied(code, body), s.index);
          RunSettled(hs, h, pos + 1, lo, s.(status := code, trace := s.trace + [Replied(code, body)]));
      }
    }
  }

  /** After Fail, no handler that had not yet started is started. */
  lemma {:induction false} FailStopsChain(hs: seq<Handler>, status: int)
    ensures NoStartAfterFail(Next(hs, Exec(-1, status, [])).trace)
  {
    NextSettled(hs, Exec(-1, status, []));
  }

  // ---------------------------------------------------------------------
  // Examples

  /** The middleware example: a logger that calls Next and then logs, the
      group middleware onlyForV2 that fails with 500 and then logs, and
      the route handler. The route handler never starts, the status is
      500, and both middlewares still finish after the failure. Logger is
      not part of this model; its script, Next and then one log line, is
      what the order of the two log lines at
      examples/middlewares/middlewares.go:37-38 suggests. */
  lemma FailExample()
    ensures var hs := [[CallNext, Mark(2)], [Fail(500, "Internal Server Error"), Mark(1)], [Reply(200, "hello")]];
      var r := Next(hs, Exec(-1, 0, []));
      r.status == 500 && r.trace == [Started(0), Started(1), Failed(500, "Internal Server Error"), Marked(1), Marked(2)]
  {
    var hs := [[CallNext, Mark(2)], [Fail(500, "Internal Server Error"), Mark(1)], [Reply(200, "hello")]];
    var s0 := Exec(0, 0, [Started(0)]);
    var s1 := Exec(1, 0, [Started(0), Started(1)]);
    var s2 := Exec(3, 500, [Started(0), Started(1), Failed(500, "Internal Server Error")]);
    var s3 := s2.(trace := s2.trace + [Marked(1)]);
    assert Run(hs, hs[1], 0, 1, s1) == Run(hs, hs[1], 1, 1, s2);
    assert Run(hs, hs[1], 1, 1, s2) == s3;
    assert Loop(hs, s3.(index := 4)) == s3.(index := 4);
    assert Next(hs, s0) == s3.(index := 4);
    var s4 := s3.(index := 4, trace := s3.trace + [Marked(2)]);
    assert Run(hs, hs[0], 0, 0, s0) == Run(hs, hs[0], 1, 0, s3.(index := 4));
    assert Run(hs, hs[0], 1, 0, s3.(index := 4)) == s4;
    assert Loop(hs, s4.(index := 5)) == s4.(index := 5);
    assert [] + [Started(0)] == s0.trace;
    assert Run(hs, hs[0], 0, 0, Exec(0, 0, [] + [Started(0)])) == s4;
    assert Loop(hs, Exec(0, 0, [])) == s4.(index := 5);
  }

  /** The cursor can move backwards: when it is already past the end of
      the chain (a handler called Next twice), a later Fail sets it back
      to exactly len(handlers). It never falls below the end again. */
  lemma FailCanLowerCursor()
    ensures var hs := [[CallNext, CallNext, Fail(500, "x")]];
      && Run(hs, hs[0], 0, 0, Exec(0, 0, [])) == Run(hs, hs[0], 2, 0, Exec(2, 0, []))
      && Run(hs, hs[0], 2, 0, Exec(2, 0, [])).index == 1
  {
    var hs := [[CallNext, CallNext, Fail(500, "x")]];
    assert Next(hs, Exec(0, 0, [])) == Exec(1, 0, []);
    assert Next(hs, Exec(1, 0, [])) == Exec(2, 0, []);
    assert Run(hs, hs[0], 0, 0, Exec(0, 0, [])) == Run(hs, hs[0], 1, 0, Exec(1, 0, []));
  }
}
