/**
 The control-flow monitor of src/runtime/safety/flow_monitor.c: the check that one
 checkpoint leads to another along the expected successors, and the monitoring of a running
 program against the checkpoint graph.
 */
module FlowMonitor {
  import opened Counting

  const VISITED_SIZE: nat := 256

  datatype Kind = Start | End | Branch | Loop | Call | Return

  datatype Checkpoint = Checkpoint(kind: Kind, expectedNext: nat, alternateNext: nat, maxTime: nat, minTime: nat)

  // ----- Flow_Monitor_ValidateFlow

  /** The answer of the check, or a read beyond the visited marks or the configured checkpoints. */
  datatype Answer = Reached | NotReached | OutOfBounds

  predicate Readable(cps: seq<Checkpoint>, x: nat) { x < VISITED_SIZE && x < |cps| }

  /** Neither successor of the checkpoint exists. */
  predicate Blocked(cps: seq<Checkpoint>, x: nat)
    requires x < |cps|
  {
    |cps| <= cps[x].expectedNext && |cps| <= cps[x].alternateNext
  }

  /** From `a`, `k` expected successors lead to `b`. */
  ghost predicate Leads(cps: seq<Checkpoint>, a: nat, b: nat, k: nat)
    decreases k
  {
    if k == 0 then a == b else Readable(cps, a) && Leads(cps, cps[a].expectedNext, b, k - 1)
  }

  ghost predicate Reachable(cps: seq<Checkpoint>, a: nat, b: nat) {
    exists k: nat :: Leads(cps, a, b, k)
  }

  /** From `a`, `k` steps short of the end lead to `x`. */
  ghost predicate Strays(cps: seq<Checkpoint>, a: nat, end: nat, x: nat, k: nat)
    decreases k
  {
    if k == 0 then a == x
    else Readable(cps, a) && a != end && !Blocked(cps, a) && Strays(cps, cps[a].expectedNext, end, x, k - 1)
  }

  /** Before the end is reached, the walk leaves the readable checkpoints. */
  ghost predicate Escapes(cps: seq<Checkpoint>, a: nat, end: nat) {
    exists x: nat, k: nat :: Strays(cps, a, end, x, k) && x != end && !Readable(cps, x)
  }

  /** A step changes neither what is reachable nor whether the walk strays. */
  lemma StepCarries(cps: seq<Checkpoint>, a: nat, end: nat)
    requires Readable(cps, a) && a != end && !Blocked(cps, a)
    ensures Reachable(cps, a, end) <==> Reachable(cps, cps[a].expectedNext, end)
    ensures Escapes(cps, a, end) <==> Escapes(cps, cps[a].expectedNext, end)
  {
    var b := cps[a].expectedNext;
    if Reachable(cps, a, end) {
      var k: nat :| Leads(cps, a, end, k);
      assert Leads(cps, b, end, k - 1);
    }
    if Reachable(cps, b, end) {
      var k: nat :| Leads(cps, b, end, k);
      assert Leads(cps, a, end, k + 1);
    }
    if Escapes(cps, a, end) {
      var x: nat, k: nat :| Strays(cps, a, end, x, k) && x != end && !Readable(cps, x);
      assert Strays(cps, b, end, x, k - 1);
    }
    if Escapes(cps, b, end) {
      var x: nat, k: nat :| Strays(cps, b, end, x, k) && x != end && !Readable(cps, x);
      assert Strays(cps, a, end, x, k + 1);
    }
  }

  /** Every checkpoint seen is an inner one, and its successor was seen or is the current one. */
  ghost predicate Seen(cps: seq<Checkpoint>, end: nat, seen: set<nat>, current: nat) {
    forall x :: x in seen ==>
      && Readable(cps, x) && x != end && !Blocked(cps, x)
      && (cps[x].expectedNext in seen || cps[x].expectedNext == current)
  }

  lemma SeenGrows(cps: seq<Checkpoint>, end: nat, seen: set<nat>, current: nat)
    requires Seen(cps, end, seen, current) && current !in seen
    requires Readable(cps, current) && current != end && !Blocked(cps, current)
    ensures Seen(cps, end, seen + {current}, cps[current].expectedNext)
    ensures |seen + {current}| == |seen| + 1 <= VISITED_SIZE && |seen| + 1 <= |cps|
  {
    BoundedSize(seen + {current}, VISITED_SIZE);
    BoundedSize(seen + {current}, |cps|);
  }

  /** A walk that comes back to a checkpoint it has seen goes round for ever. */
  lemma {:induction false} CycleNeverEnds(cps: seq<Checkpoint>, end: nat, seen: set<nat>, current: nat, a: nat, x: nat,
                                          k: nat)
    requires Seen(cps, end, seen, current) && current in seen && a in seen
    ensures !Leads(cps, a, end, k)
    ensures Strays(cps, a, end, x, k) ==> x in seen
    decreases k
  {
    if k != 0 {
      CycleNeverEnds(cps, end, seen, current, cps[a].expectedNext, x, k - 1);
    }
  }

  lemma CycleAnswers(cps: seq<Checkpoint>, end: nat, seen: set<nat>, current: nat)
    requires Seen(cps, end, seen, current) && current in seen
    ensures !Reachable(cps, current, end) && !Escapes(cps, current, end)
  {
    forall x: nat, k: nat
      ensures !Leads(cps, current, end, k)
      ensures Strays(cps, current, end, x, k) ==> x in seen
    {
      CycleNeverEnds(cps, end, seen, current, current, x, k);
    }
  }

  /** Where both successors are missing the walk stops. */
  lemma BlockedAnswers(cps: seq<Checkpoint>, a: nat, end: nat)
    requires Readable(cps, a) && a != end < |cps| && Blocked(cps, a)
    ensures !Reachable(cps, a, end) && !Escapes(cps, a, end)
  {
    forall k: nat
      ensures !Leads(cps, a, end, k)
    {
      if 1 < k {
        assert !Readable(cps, cps[a].expectedNext);
      }
    }
  }

  lemma StrayAnswers(cps: seq<Checkpoint>, a: nat, end: nat)
    requires a != end && !Readable(cps, a)
    ensures !Reachable(cps, a, end) && Escapes(cps, a, end)
  {
    assert Strays(cps, a, end, a, 0);
  }

  lemma EndAnswers(cps: seq<Checkpoint>, end: nat)
    ensures Reachable(cps, end, end) && !Escapes(cps, end, end)
  {
    assert Leads(cps, end, end, 0);
  }

  /**
   The walk answers "reached" exactly when the end is reachable from the start, reads out of
   bounds exactly when it strays first, and marks each checkpoint at most once.
   */
  method ValidateFlow(cps: seq<Checkpoint>, initialized: bool, start: nat, end: nat)
    returns (r: Answer, ghost steps: nat)
    ensures r == Reached <==> initialized && start < |cps| && end < |cps| && Reachable(cps, start, end)
    ensures r == OutOfBounds <==> initialized && start < |cps| && end < |cps| && Escapes(cps, start, end)
    ensures steps <= |cps| && steps <= VISITED_SIZE
  {
    if !initialized || start >= |cps| || end >= |cps| { return NotReached, 0; }
    var current: nat := start;
    var visited := new nat[VISITED_SIZE](_ => 0);
    ghost var seen: set<nat> := {};
    steps := 0;
    while current != end
      invariant Seen(cps, end, seen, current)
      invariant Reachable(cps, start, end) <==> Reachable(cps, current, end)
      invariant Escapes(cps, start, end) <==> Escapes(cps, current, end)
      invariant forall x :: 0 <= x < VISITED_SIZE ==> (visited[x] > 0 <==> x in seen)
      invariant steps == |seen| && steps <= |cps| && steps <= VISITED_SIZE
      decreases VISITED_SIZE - steps
    {
      if current >= VISITED_SIZE {
        StrayAnswers(cps, current, end);
        return OutOfBounds, steps;
      }
      visited[current] := visited[current] + 1;
      if visited[current] > 1 {
        CycleAnswers(cps, end, seen, current);
        return NotReached, steps;
      }
      if current >= |cps| {
        StrayAnswers(cps, current, end);
        return OutOfBounds, steps;
      }
      if cps[current].expectedNext >= |cps| && cps[current].alternateNext >= |cps| {
        BlockedAnswers(cps, current, end);
        return NotReached, steps;
      }
      StepCarries(cps, current, end);
      SeenGrows(cps, end, seen, current);
      seen, steps := seen + {current}, steps + 1;
      current := cps[current].expectedNext;
    }
    EndAnswers(cps, end);
    return Reached, steps;
  }

  /**
   No walk between two of the checkpoints reads out of bounds exactly if there are at most 256
   and every expected successor exists, except where the walk stops.
   */
  lemma NeverEscapesIff(cps: seq<Checkpoint>)
    requires 2 <= |cps|
    ensures (forall start: nat, end: nat :: start < |cps| && end < |cps| ==> !Escapes(cps, start, end)) <==>
            |cps| <= VISITED_SIZE && forall i :: 0 <= i < |cps| ==> Sound(cps, i)
  {
    if |cps| <= VISITED_SIZE && forall i :: 0 <= i < |cps| ==> Sound(cps, i) {
      forall start: nat, end: nat, x: nat, k: nat | start < |cps| && Strays(cps, start, end, x, k)
        ensures Readable(cps, x)
      {
        StaysReadable(cps, start, end, x, k);
      }
    } else if VISITED_SIZE < |cps| {
      StrayAnswers(cps, VISITED_SIZE, 0);
    } else {
      var i: nat :| i < |cps| && !Sound(cps, i);
      UnsoundEscapes(cps, i, if i == 0 then 1 else 0);
    }
  }

  predicate Sound(cps: seq<Checkpoint>, i: nat)
    requires i < |cps|
  {
    cps[i].expectedNext < |cps| || Blocked(cps, i)
  }

  lemma {:induction false} StaysReadable(cps: seq<Checkpoint>, a: nat, end: nat, x: nat, k: nat)
    requires |cps| <= VISITED_SIZE && a < |cps| && Strays(cps, a, end, x, k)
    requires forall i :: 0 <= i < |cps| ==> Sound(cps, i)
    ensures Readable(cps, x)
    decreases k
  {
    if k != 0 {
      assert Sound(cps, a);
      StaysReadable(cps, cps[a].expectedNext, end, x, k - 1);
    }
  }

  /** An existing alternate lets the walk follow a missing expected successor out of bounds. */
  lemma UnsoundEscapes(cps: seq<Checkpoint>, i: nat, end: nat)
    requires i < |cps| <= VISITED_SIZE && !Sound(cps, i) && end < |cps| && i != end
    ensures Escapes(cps, i, end)
  {
    var next := cps[i].expectedNext;
    assert Strays(cps, next, end, next, 0);
    assert Strays(cps, i, end, next, 1);
  }

  // ----- Flow_Monitor_Checkpoint

  datatype Result = Ok | ErrorSequence | ErrorTiming | ErrorStack | ErrorConfig

  /** What the monitor keeps: the last checkpoint, the errors and the call stack. */
  datatype Monitor = Monitor(current: nat, errors: nat, stack: seq<nat>)

  predicate Transition(cps: seq<Checkpoint>, a: nat, b: nat)
    requires a < |cps|
  {
    b == cps[a].expectedNext || b == cps[a].alternateNext
  }

  /** One reported checkpoint; `elapsed` is what the timer reads. */
  function Report(cps: seq<Checkpoint>, maxDepth: nat, m: Monitor, id: nat, elapsed: nat): (Monitor, Result)
    requires m.current == 0 || m.current < |cps|
  {
    if id >= |cps| then (m, ErrorConfig)
    else
      var cp := cps[id];
      var failed := m.(errors := m.errors + 1);
      if m.current != 0 && !Transition(cps, m.current, id) then (failed, ErrorSequence)
      else if (cp.minTime > 0 || cp.maxTime > 0) && (elapsed < cp.minTime || elapsed > cp.maxTime)
      then (failed, ErrorTiming)
      else if cp.kind == Call then
        if |m.stack| >= maxDepth then (failed, ErrorStack)
        else (m.(current := id, stack := m.stack + [m.current]), Ok)
      else if cp.kind == Return then
        if m.stack == [] then (failed, ErrorStack)
        else (m.(current := id, stack := m.stack[..|m.stack| - 1]), Ok)
      else (m.(current := id), Ok)
  }

  /** The monitoring object; the stack array bounds the depth that can be configured. */
  class Watch {
    const cps: seq<Checkpoint>
    const maxDepth: nat
    var current: nat
    var errors: nat
    const callStack: array<nat>
    var stackDepth: nat

    ghost predicate Valid()
      reads this, callStack
    {
      && (current == 0 || current < |cps|)
      && stackDepth <= maxDepth <= callStack.Length == 32
    }

    ghost function Value(): Monitor
      reads this, callStack
      requires Valid()
    {
      Monitor(current, errors, callStack[..stackDepth])
    }

    constructor (cps: seq<Checkpoint>, maxDepth: nat)
      requires maxDepth <= 32
      ensures Valid() && fresh(callStack) && Value() == Monitor(0, 0, [])
      ensures this.cps == cps && this.maxDepth == maxDepth
    {
      this.cps, this.maxDepth := cps, maxDepth;
      current, errors, stackDepth := 0, 0, 0;
      callStack := new nat[32](_ => 0);
    }

    method Check(id: nat, elapsed: nat) returns (r: Result)
      requires Valid()
      modifies this, callStack
      ensures Valid() && (Value(), r) == Report(cps, maxDepth, old(Value()), id, elapsed)
    {
      if id >= |cps| { return ErrorConfig; }
      var cp := cps[id];
      if current != 0 && id != cps[current].expectedNext && id != cps[current].alternateNext {
        errors := errors + 1;
        return ErrorSequence;
      }
      if (cp.minTime > 0 || cp.maxTime > 0) && (elapsed < cp.minTime || elapsed > cp.maxTime) {
        errors := errors + 1;
        return ErrorTiming;
      }
      if cp.kind == Call {
        if stackDepth >= maxDepth {
          errors := errors + 1;
          return ErrorStack;
        }
        callStack[stackDepth] := current;
        stackDepth := stackDepth + 1;
        assert callStack[..stackDepth] == old(callStack[..stackDepth]) + [current];
      } else if cp.kind == Return {
        if stackDepth == 0 {
          errors := errors + 1;
          return ErrorStack;
        }
        stackDepth := stackDepth - 1;
        assert callStack[..stackDepth] == old(callStack[..stackDepth])[..stackDepth];
      }
      current := id;
      return Ok;
    }
  }

  /** A run of reports, with the checkpoints that were accepted. */
  ghost function Reports(cps: seq<Checkpoint>, maxDepth: nat, m: Monitor, ids: seq<(nat, nat)>)
    : (r: (Monitor, seq<nat>))
    requires m.current == 0 || m.current < |cps|
    ensures r.0.current == 0 || r.0.current < |cps|
    decreases |ids|
  {
    if ids == [] then (m, [])
    else
      var (m', result) := Report(cps, maxDepth, m, ids[0].0, ids[0].1);
      var (last, accepted) := Reports(cps, maxDepth, m', ids[1..]);
      (last, (if result == Ok then [ids[0].0] else []) + accepted)
  }

  /** One report after another: what the first one contributes. */
  lemma ReportsStep(cps: seq<Checkpoint>, maxDepth: nat, m: Monitor, ids: seq<(nat, nat)>)
    requires (m.current == 0 || m.current < |cps|) && ids != []
    ensures
      var (m', result) := Report(cps, maxDepth, m, ids[0].0, ids[0].1);
      var (last, rest) := Reports(cps, maxDepth, m', ids[1..]);
      Reports(cps, maxDepth, m, ids) == (last, if result == Ok then [ids[0].0] + rest else rest)
  {
    var (m', result) := Report(cps, maxDepth, m, ids[0].0, ids[0].1);
    var rest := Reports(cps, maxDepth, m', ids[1..]).1;
    assert [] + rest == rest;
  }

  /** The accepted checkpoints of a run: each exists and is an allowed successor of the one before. */
  ghost predicate Path(cps: seq<Checkpoint>, before: nat, ids: seq<nat>)
    requires before == 0 || before < |cps|
    decreases |ids|
  {
    ids != [] ==>
      && ids[0] < |cps| && (before == 0 || Transition(cps, before, ids[0]))
      && Path(cps, ids[0], ids[1..])
  }

  ghost function LastOf(before: nat, ids: seq<nat>): nat
    decreases |ids|
  {
    if ids == [] then before else LastOf(ids[0], ids[1..])
  }

  lemma PathFirst(cps: seq<Checkpoint>, before: nat, x: nat, rest: seq<nat>)
    requires (before == 0 || before < |cps|) && x < |cps| && (before == 0 || Transition(cps, before, x))
    requires Path(cps, x, rest)
    ensures Path(cps, before, [x] + rest) && LastOf(before, [x] + rest) == LastOf(x, rest)
  {
    assert ([x] + rest)[1..] == rest;
  }

  lemma CountFirst(cps: seq<Checkpoint>, x: nat, rest: seq<nat>, kind: Kind)
    requires x < |cps|
    ensures Count(cps, [x] + rest, kind) == (if cps[x].kind == kind then 1 else 0) + Count(cps, rest, kind)
  {
    assert ([x] + rest)[1..] == rest;
  }

  /** What one report does to the stack, the errors and the current checkpoint. */
  lemma ReportEffect(cps: seq<Checkpoint>, maxDepth: nat, m: Monitor, id: nat, elapsed: nat)
    requires (m.current == 0 || m.current < |cps|) && |m.stack| <= maxDepth
    ensures
      var (m', result) := Report(cps, maxDepth, m, id, elapsed);
      && |m'.stack| <= maxDepth
      && (result == Ok ==>
            && id < |cps| && m'.current == id && m'.errors == m.errors
            && |m'.stack| ==
               |m.stack| + (if cps[id].kind == Call then 1 else 0) - (if cps[id].kind == Return then 1 else 0))
      && (result != Ok ==>
            && m'.current == m.current && m'.stack == m.stack
            && m'.errors == m.errors + if id < |cps| then 1 else 0)
  {
  }

  lemma ReportMoves(cps: seq<Checkpoint>, maxDepth: nat, m: Monitor, id: nat, elapsed: nat)
    requires m.current == 0 || m.current < |cps|
    ensures
      var (m', result) := Report(cps, maxDepth, m, id, elapsed);
      if result == Ok then id < |cps| && m'.current == id && (m.current == 0 || Transition(cps, m.current, id))
      else m'.current == m.current
  {
  }

  /** In every run the accepted checkpoints form a path; anything may follow checkpoint 0. */
  lemma {:induction false} AcceptedIsPath(cps: seq<Checkpoint>, maxDepth: nat, m: Monitor, ids: seq<(nat, nat)>)
    requires m.current == 0 || m.current < |cps|
    ensures
      var (last, accepted) := Reports(cps, maxDepth, m, ids);
      && Path(cps, m.current, accepted)
      && last.current == LastOf(m.current, accepted)
    decreases |ids|
  {
    if ids != [] {
      var id, elapsed := ids[0].0, ids[0].1;
      var (m', result) := Report(cps, maxDepth, m, id, elapsed);
      ReportMoves(cps, maxDepth, m, id, elapsed);
      AcceptedIsPath(cps, maxDepth, m', ids[1..]);
      var (last, rest) := Reports(cps, maxDepth, m', ids[1..]);
      if result == Ok {
        PathFirst(cps, m.current, id, rest);
      }
      ReportsStep(cps, maxDepth, m, ids);
      assert Reports(cps, maxDepth, m, ids).1 == if result == Ok then [id] + rest else rest;
    }
  }

  ghost function Count(cps: seq<Checkpoint>, ids: seq<nat>, kind: Kind): nat {
    if ids == [] then 0
    else (if ids[0] < |cps| && cps[ids[0]].kind == kind then 1 else 0) + Count(cps, ids[1..], kind)
  }

  /**
   In every run the stack is as deep as accepted calls exceed accepted returns, and never
   deeper than allowed; every known checkpoint is either accepted or counted as an error.
   */
  lemma {:induction false} StackMatchesCalls(cps: seq<Checkpoint>, maxDepth: nat, m: Monitor, ids: seq<(nat, nat)>)
    requires (m.current == 0 || m.current < |cps|) && |m.stack| <= maxDepth
    ensures
      var (last, accepted) := Reports(cps, maxDepth, m, ids);
      && |last.stack| + Count(cps, accepted, Return) == |m.stack| + Count(cps, accepted, Call)
      && |last.stack| <= maxDepth
      && last.errors + |accepted| == m.errors + Known(cps, ids)
    decreases |ids|
  {
    if ids != [] {
      ReportsStep(cps, maxDepth, m, ids);
      var (m', result) := Report(cps, maxDepth, m, ids[0].0, ids[0].1);
      ReportEffect(cps, maxDepth, m, ids[0].0, ids[0].1);
      StackMatchesCalls(cps, maxDepth, m', ids[1..]);
      if result == Ok {
        var rest := Reports(cps, maxDepth, m', ids[1..]).1;
        CountFirst(cps, ids[0].0, rest, Call);
        CountFirst(cps, ids[0].0, rest, Return);
      }
    }
  }

  ghost function Known(cps: seq<Checkpoint>, ids: seq<(nat, nat)>): nat {
    if ids == [] then 0 else (if ids[0].0 < |cps| then 1 else 0) + Known(cps, ids[1..])
  }
}
