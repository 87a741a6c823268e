/**
 Which checkpoints Flow_Monitor_Checkpoint of src/runtime/safety/flow_monitor.c accepts: when a
 single report gets which answer, which runs are accepted in full, and what the call stack
 holds after any run.
 */
module FlowRuns {
  import opened FlowMonitor

  // ----- One report

  /** Checkpoint 0 may be followed by any, every other one by two at most. */
  predicate Follows(cps: seq<Checkpoint>, current: nat, id: nat) {
    || current == 0
    || (current < |cps| && (id == cps[current].expectedNext || id == cps[current].alternateNext))
  }

  /** There is no time window, or the time lies in it. */
  predicate InWindow(cp: Checkpoint, elapsed: nat) {
    (cp.minTime == 0 && cp.maxTime == 0) || cp.minTime <= elapsed <= cp.maxTime
  }

  /** A call finds room on the stack, a return finds something there. */
  predicate StackServes(cp: Checkpoint, depth: int, maxDepth: nat) {
    match cp.kind
    case Call => depth < maxDepth
    case Return => 0 < depth
    case _ => true
  }

  /** When a report gets which answer. */
  lemma AnswerIff(cps: seq<Checkpoint>, maxDepth: nat, m: Monitor, id: nat, elapsed: nat)
    requires m.current == 0 || m.current < |cps|
    ensures
      var answer := Report(cps, maxDepth, m, id, elapsed).1;
      var known := id < |cps|;
      var follows := Follows(cps, m.current, id);
      var inTime := known && InWindow(cps[id], elapsed);
      var served := known && StackServes(cps[id], |m.stack|, maxDepth);
      && (answer == Ok <==> known && follows && inTime && served)
      && (answer == ErrorConfig <==> !known)
      && (answer == ErrorSequence <==> known && !follows)
      && (answer == ErrorTiming <==> known && follows && !inTime)
      && (answer == ErrorStack <==> known && follows && inTime && !served)
  {
  }

  // ----- Runs that are accepted in full

  function Ids(reports: seq<(nat, nat)>): (r: seq<nat>)
    ensures |r| == |reports| && forall k :: 0 <= k < |r| ==> r[k] == reports[k].0
  {
    seq(|reports|, k requires 0 <= k < |reports| => reports[k].0)
  }

  /** How deep the stack is after the first `k` checkpoints when all are accepted. */
  ghost function DepthAt(cps: seq<Checkpoint>, depth: nat, ids: seq<nat>, k: nat): int
    requires k <= |ids|
  {
    depth + Count(cps, ids[..k], Call) - Count(cps, ids[..k], Return)
  }

  /** Report `k` would be accepted after all before it were. */
  ghost predicate Admits(cps: seq<Checkpoint>, maxDepth: nat, m: Monitor, reports: seq<(nat, nat)>, k: nat)
    requires k < |reports|
  {
    var id := reports[k].0;
    && id < |cps| && Follows(cps, if k == 0 then m.current else reports[k - 1].0, id)
    && InWindow(cps[id], reports[k].1)
    && StackServes(cps[id], DepthAt(cps, |m.stack|, Ids(reports), k), maxDepth)
  }

  ghost predicate Admissible(cps: seq<Checkpoint>, maxDepth: nat, m: Monitor, reports: seq<(nat, nat)>) {
    forall k :: 0 <= k < |reports| ==> Admits(cps, maxDepth, m, reports, k)
  }

  lemma {:induction false} AcceptedAtMost(cps: seq<Checkpoint>, maxDepth: nat, m: Monitor, reports: seq<(nat, nat)>)
    requires m.current == 0 || m.current < |cps|
    ensures |Reports(cps, maxDepth, m, reports).1| <= |reports|
    decreases |reports|
  {
    if reports != [] {
      ReportsStep(cps, maxDepth, m, reports);
      var m' := Report(cps, maxDepth, m, reports[0].0, reports[0].1).0;
      AcceptedAtMost(cps, maxDepth, m', reports[1..]);
    }
  }

  lemma DepthLater(cps: seq<Checkpoint>, depth: nat, depth': nat, ids: seq<nat>, k: nat)
    requires ids != [] && k <= |ids[1..]| && ids[0] < |cps|
    requires depth' ==
             depth + (if cps[ids[0]].kind == Call then 1 else 0) - (if cps[ids[0]].kind == Return then 1 else 0)
    ensures DepthAt(cps, depth', ids[1..], k) == DepthAt(cps, depth, ids, k + 1)
  {
    assert ids[..k + 1] == [ids[0]] + ids[1..][..k];
    CountFirst(cps, ids[0], ids[1..][..k], Call);
    CountFirst(cps, ids[0], ids[1..][..k], Return);
  }

  /** After an accepted report the others are admitted as they were before it. */
  lemma AdmitsLater(cps: seq<Checkpoint>, maxDepth: nat, m: Monitor, reports: seq<(nat, nat)>, k: nat)
    requires (m.current == 0 || m.current < |cps|) && |m.stack| <= maxDepth && k < |reports| - 1
    requires Report(cps, maxDepth, m, reports[0].0, reports[0].1).1 == Ok
    ensures
      var m' := Report(cps, maxDepth, m, reports[0].0, reports[0].1).0;
      Admits(cps, maxDepth, m', reports[1..], k) <==> Admits(cps, maxDepth, m, reports, k + 1)
  {
    var m' := Report(cps, maxDepth, m, reports[0].0, reports[0].1).0;
    ReportEffect(cps, maxDepth, m, reports[0].0, reports[0].1);
    assert Ids(reports[1..]) == Ids(reports)[1..];
    DepthLater(cps, |m.stack|, |m'.stack|, Ids(reports), k);
  }

  lemma FirstAdmitted(cps: seq<Checkpoint>, maxDepth: nat, m: Monitor, reports: seq<(nat, nat)>)
    requires (m.current == 0 || m.current < |cps|) && reports != []
    ensures Admits(cps, maxDepth, m, reports, 0) <==>
            Report(cps, maxDepth, m, reports[0].0, reports[0].1).1 == Ok
  {
    AnswerIff(cps, maxDepth, m, reports[0].0, reports[0].1);
    assert Ids(reports)[..0] == [];
  }

  lemma AdmissibleFirst(cps: seq<Checkpoint>, maxDepth: nat, m: Monitor, reports: seq<(nat, nat)>)
    requires (m.current == 0 || m.current < |cps|) && |m.stack| <= maxDepth && reports != []
    requires Report(cps, maxDepth, m, reports[0].0, reports[0].1).1 == Ok
    ensures
      var m' := Report(cps, maxDepth, m, reports[0].0, reports[0].1).0;
      Admissible(cps, maxDepth, m', reports[1..]) <==> Admissible(cps, maxDepth, m, reports)
  {
    var m' := Report(cps, maxDepth, m, reports[0].0, reports[0].1).0;
    FirstAdmitted(cps, maxDepth, m, reports);
    forall k | 0 <= k < |reports| - 1
      ensures Admits(cps, maxDepth, m', reports[1..], k) <==> Admits(cps, maxDepth, m, reports, k + 1)
    {
      AdmitsLater(cps, maxDepth, m, reports, k);
    }
    if Admissible(cps, maxDepth, m', reports[1..]) {
      forall k | 0 < k < |reports|
        ensures Admits(cps, maxDepth, m, reports, k)
      {
        assert Admits(cps, maxDepth, m', reports[1..], k - 1);
      }
    }
  }

  /**
   A run is accepted in full if and only if every checkpoint is known, follows the one before,
   is in time, and calls and returns never leave the stack: checked on the reports alone.
   */
  lemma {:induction false} AcceptedInFullIff(cps: seq<Checkpoint>, maxDepth: nat, m: Monitor,
                                             reports: seq<(nat, nat)>)
    requires (m.current == 0 || m.current < |cps|) && |m.stack| <= maxDepth
    ensures Reports(cps, maxDepth, m, reports).1 == Ids(reports) <==> Admissible(cps, maxDepth, m, reports)
    decreases |reports|
  {
    if reports == [] {
    } else {
      ReportsStep(cps, maxDepth, m, reports);
      FirstAdmitted(cps, maxDepth, m, reports);
      var (m', answer) := Report(cps, maxDepth, m, reports[0].0, reports[0].1);
      var rest := Reports(cps, maxDepth, m', reports[1..]).1;
      if answer == Ok {
        ReportEffect(cps, maxDepth, m, reports[0].0, reports[0].1);
        AcceptedInFullIff(cps, maxDepth, m', reports[1..]);
        AdmissibleFirst(cps, maxDepth, m, reports);
        assert Ids(reports) == [reports[0].0] + Ids(reports[1..]);
        assert ([reports[0].0] + rest)[1..] == rest && Ids(reports)[1..] == Ids(reports[1..]);
      } else {
        AcceptedAtMost(cps, maxDepth, m', reports[1..]);
      }
    }
  }

  // ----- What the stack holds

  lemma {:induction false} CountConcat(cps: seq<Checkpoint>, a: seq<nat>, x: nat, kind: Kind)
    requires x < |cps|
    ensures Count(cps, a + [x], kind) == Count(cps, a, kind) + if cps[x].kind == kind then 1 else 0
  {
    if a == [] {
      assert a + [x] == [x] && [x][1..] == [];
    } else {
      assert (a + [x])[0] == a[0] && (a + [x])[1..] == a[1..] + [x];
      CountConcat(cps, a[1..], x, kind);
    }
  }

  /** Checkpoint `k` of the accepted ones is the call that is still open at depth `l`, made from `caller`. */
  ghost predicate OpenCall(cps: seq<Checkpoint>, accepted: seq<nat>, l: nat, k: nat, caller: nat) {
    && k < |accepted| && accepted[k] < |cps| && cps[accepted[k]].kind == Call
    && caller == (if k == 0 then 0 else accepted[k - 1])
    && DepthAt(cps, 0, accepted, k) == l
    && forall j :: k < j <= |accepted| ==> l < DepthAt(cps, 0, accepted, j)
  }

  ghost predicate HoldsCallers(cps: seq<Checkpoint>, stack: seq<nat>, accepted: seq<nat>) {
    && DepthAt(cps, 0, accepted, |accepted|) == |stack|
    && forall l :: 0 <= l < |stack| ==> IsCaller(cps, accepted, l, stack[l])
  }

  ghost predicate IsCaller(cps: seq<Checkpoint>, accepted: seq<nat>, l: nat, caller: nat) {
    exists k: nat :: OpenCall(cps, accepted, l, k, caller)
  }

  const FRESH := Monitor(0, 0, [])

  lemma {:induction false} ReportsSnoc(cps: seq<Checkpoint>, maxDepth: nat, m: Monitor, reports: seq<(nat, nat)>,
                                       last: (nat, nat))
    requires m.current == 0 || m.current < |cps|
    ensures
      var (mid, accepted) := Reports(cps, maxDepth, m, reports);
      var (m', answer) := Report(cps, maxDepth, mid, last.0, last.1);
      Reports(cps, maxDepth, m, reports + [last]) == (m', if answer == Ok then accepted + [last.0] else accepted)
    decreases |reports|
  {
    var all := reports + [last];
    ReportsStep(cps, maxDepth, m, all);
    if reports == [] {
      var id := last.0;
      assert all == [last] && all[1..] == [] && [id] + [] == [] + [id];
    } else {
      assert all[0] == reports[0] && all[1..] == reports[1..] + [last];
      ReportsStep(cps, maxDepth, m, reports);
      var (m', answer) := Report(cps, maxDepth, m, reports[0].0, reports[0].1);
      ReportsSnoc(cps, maxDepth, m', reports[1..], last);
      var accepted := Reports(cps, maxDepth, m', reports[1..]).1;
      assert [reports[0].0] + (accepted + [last.0]) == ([reports[0].0] + accepted) + [last.0];
    }
  }

  lemma DepthSame(cps: seq<Checkpoint>, accepted: seq<nat>, x: nat, k: nat)
    requires k <= |accepted|
    ensures DepthAt(cps, 0, accepted + [x], k) == DepthAt(cps, 0, accepted, k)
  {
    assert (accepted + [x])[..k] == accepted[..k];
  }

  lemma DepthNext(cps: seq<Checkpoint>, accepted: seq<nat>, x: nat)
    requires x < |cps|
    ensures DepthAt(cps, 0, accepted + [x], |accepted| + 1) == DepthAt(cps, 0, accepted, |accepted|)
            + (if cps[x].kind == Call then 1 else 0) - (if cps[x].kind == Return then 1 else 0)
  {
    assert (accepted + [x])[..|accepted| + 1] == accepted + [x] && accepted[..|accepted|] == accepted;
    CountConcat(cps, accepted, x, Call);
    CountConcat(cps, accepted, x, Return);
  }

  /** A call that was open stays open while the stack stays higher. */
  lemma StaysOpen(cps: seq<Checkpoint>, accepted: seq<nat>, x: nat, l: nat, k: nat, caller: nat)
    requires OpenCall(cps, accepted, l, k, caller) && l < DepthAt(cps, 0, accepted + [x], |accepted| + 1)
    ensures OpenCall(cps, accepted + [x], l, k, caller)
  {
    var all := accepted + [x];
    DepthSame(cps, accepted, x, k);
    forall j | k < j <= |all|
      ensures l < DepthAt(cps, 0, all, j)
    {
      if j <= |accepted| {
        DepthSame(cps, accepted, x, j);
      }
    }
  }

  lemma NewlyOpen(cps: seq<Checkpoint>, accepted: seq<nat>, x: nat, caller: nat, l: nat)
    requires x < |cps| && cps[x].kind == Call && DepthAt(cps, 0, accepted, |accepted|) == l
    requires caller == if accepted == [] then 0 else accepted[|accepted| - 1]
    ensures OpenCall(cps, accepted + [x], l, |accepted|, caller)
  {
    DepthSame(cps, accepted, x, |accepted|);
    DepthNext(cps, accepted, x);
  }

  lemma CallersNext(cps: seq<Checkpoint>, stack: seq<nat>, stack': seq<nat>, accepted: seq<nat>, x: nat)
    requires HoldsCallers(cps, stack, accepted) && x < |cps|
    requires
      match cps[x].kind
      case Call => stack' == stack + [if accepted == [] then 0 else accepted[|accepted| - 1]]
      case Return => stack != [] && stack' == stack[..|stack| - 1]
      case _ => stack' == stack
    ensures HoldsCallers(cps, stack', accepted + [x])
  {
    var all := accepted + [x];
    DepthNext(cps, accepted, x);
    forall l | 0 <= l < |stack'|
      ensures IsCaller(cps, all, l, stack'[l])
    {
      if l < |stack| {
        assert stack'[l] == stack[l] && IsCaller(cps, accepted, l, stack[l]);
        var k: nat :| OpenCall(cps, accepted, l, k, stack[l]);
        StaysOpen(cps, accepted, x, l, k, stack[l]);
      } else {
        NewlyOpen(cps, accepted, x, stack'[l], l);
      }
    }
  }

  /** The state of a monitor that has accepted these checkpoints, the last one last. */
  ghost predicate Tracks(cps: seq<Checkpoint>, m: Monitor, accepted: seq<nat>) {
    && HoldsCallers(cps, m.stack, accepted)
    && m.current == if accepted == [] then 0 else accepted[|accepted| - 1]
  }

  lemma TracksNext(cps: seq<Checkpoint>, maxDepth: nat, m: Monitor, accepted: seq<nat>, report: (nat, nat))
    requires Tracks(cps, m, accepted) && (m.current == 0 || m.current < |cps|)
    ensures
      var (m', answer) := Report(cps, maxDepth, m, report.0, report.1);
      Tracks(cps, m', if answer == Ok then accepted + [report.0] else accepted)
  {
    var (m', answer) := Report(cps, maxDepth, m, report.0, report.1);
    if answer == Ok {
      CallersNext(cps, m.stack, m'.stack, accepted, report.0);
    }
  }

  /**
   After any run of a fresh monitor the stack holds, at every depth, the checkpoint from which
   the call was made that is still open there.
   */
  lemma {:induction false} StackHoldsCallers(cps: seq<Checkpoint>, maxDepth: nat, reports: seq<(nat, nat)>)
    ensures
      var (last, accepted) := Reports(cps, maxDepth, FRESH, reports);
      Tracks(cps, last, accepted)
    decreases |reports|
  {
    if reports == [] {
    } else {
      var n := |reports| - 1;
      var before, report := reports[..n], reports[n];
      assert reports == before + [report];
      StackHoldsCallers(cps, maxDepth, before);
      ReportsSnoc(cps, maxDepth, FRESH, before, report);
      var (mid, accepted) := Reports(cps, maxDepth, FRESH, before);
      TracksNext(cps, maxDepth, mid, accepted, report);
    }
  }
}
