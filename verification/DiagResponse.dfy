/**
 The table of pending responses of src/runtime/diagnostic/diag_response.c: sixteen slots, a
 high-water mark that bounds the search, and one callback for every accepted request.
 */
module DiagResponse {
  import opened Basics
  import opened Conservation
  import opened Counting

  const MAX_PENDING: nat := 16

  // ----- Pending requests as a map from message id to callback context

  type Pending = map<nat, nat>

  /** A request (with a callback or without one, and the timer it may or may not get), or its end. */
  datatype Op = Queue(id: nat, context: nat, hasCallback: bool, hasTimer: bool) | Complete(id: nat)

  predicate Accepts(p: Pending, op: Op)
    requires op.Queue?
  {
    op.hasCallback && op.id !in p && |p| < MAX_PENDING && op.hasTimer
  }

  function Step(p: Pending, op: Op): Pending {
    match op
    case Queue(id, context, _, _) => if Accepts(p, op) then p[id := context] else p
    case Complete(id) => p - {id}
  }

  /** The contexts accepted for one message id, and the contexts called back for it. */
  function AcceptedFor(p: Pending, op: Op, id: nat): seq<nat> {
    if op.Queue? && op.id == id && Accepts(p, op) then [op.context] else []
  }

  function FiredFor(p: Pending, op: Op, id: nat): seq<nat> {
    if op.Complete? && op.id == id && id in p then [p[id]] else []
  }

  ghost function Final(p: Pending, ops: seq<Op>): Pending
    decreases |ops|
  {
    if ops == [] then p else Final(Step(p, ops[0]), ops[1..])
  }

  ghost function Accepted(p: Pending, ops: seq<Op>, id: nat): seq<nat>
    decreases |ops|
  {
    if ops == [] then [] else AcceptedFor(p, ops[0], id) + Accepted(Step(p, ops[0]), ops[1..], id)
  }

  ghost function Fired(p: Pending, ops: seq<Op>, id: nat): seq<nat>
    decreases |ops|
  {
    if ops == [] then [] else FiredFor(p, ops[0], id) + Fired(Step(p, ops[0]), ops[1..], id)
  }

  function Waiting(p: Pending, id: nat): seq<nat> {
    if id in p then [p[id]] else []
  }

  lemma StepConserves(p: Pending, op: Op, id: nat)
    ensures Waiting(p, id) + AcceptedFor(p, op, id) == FiredFor(p, op, id) + Waiting(Step(p, op), id)
  {
  }

  lemma StepBounded(p: Pending, op: Op)
    requires |p| <= MAX_PENDING
    ensures |Step(p, op)| <= MAX_PENDING
  {
    match op
    case Queue(i, context, _, _) =>
      assert p[i := context].Keys == p.Keys + {i};
    case Complete(i) =>
      assert (p - {i}).Keys == p.Keys - {i};
      SubsetSize(p.Keys - {i}, p.Keys);
  }

  /**
   In every run and for every message id, the accepted contexts are called back once each and
   in order; only the last one may still be waiting.
   */
  lemma {:induction false} EveryRequestCalledBackOnce(p: Pending, ops: seq<Op>, id: nat)
    requires |p| <= MAX_PENDING
    ensures Waiting(p, id) + Accepted(p, ops, id) == Fired(p, ops, id) + Waiting(Final(p, ops), id)
    ensures |Final(p, ops)| <= MAX_PENDING
    decreases |ops|
  {
    if ops == [] {
      assert Waiting(p, id) + [] == [] + Waiting(p, id);
    } else {
      var p', rest := Step(p, ops[0]), ops[1..];
      StepConserves(p, ops[0], id);
      StepBounded(p, ops[0]);
      EveryRequestCalledBackOnce(p', rest, id);
      Chained(Waiting(p, id), AcceptedFor(p, ops[0], id), FiredFor(p, ops[0], id), Waiting(p', id),
              Accepted(p', rest, id), Fired(p', rest, id), Waiting(Final(p', rest), id));
    }
  }

  // ----- Which requests are taken

  /** The ids that were accepted once more than they were called back. */
  ghost function OpenIds(ops: seq<Op>): set<nat> {
    set o | o in ops && o.Queue? && |Fired(map[], ops, o.id)| < |Accepted(map[], ops, o.id)| :: o.id
  }

  lemma {:induction false} AcceptedWasQueued(p: Pending, ops: seq<Op>, id: nat)
    requires Accepted(p, ops, id) != []
    ensures exists o :: o in ops && o.Queue? && o.id == id
    decreases |ops|
  {
    if AcceptedFor(p, ops[0], id) == [] {
      AcceptedWasQueued(Step(p, ops[0]), ops[1..], id);
      var o :| o in ops[1..] && o.Queue? && o.id == id;
      assert o in ops;
    } else {
      assert ops[0] in ops;
    }
  }

  lemma OpenIsPending(ops: seq<Op>)
    ensures Final(map[], ops).Keys == OpenIds(ops)
  {
    var p: Pending := map[];
    forall id: nat
      ensures id in Final(p, ops) <==> id in OpenIds(ops)
    {
      EveryRequestCalledBackOnce(p, ops, id);
      assert |Accepted(p, ops, id)| == |Fired(p, ops, id)| + |Waiting(Final(p, ops), id)|;
      if id in Final(p, ops) {
        AcceptedWasQueued(p, ops, id);
      }
    }
  }

  /**
   After any run a request is taken exactly if it has a callback, gets a timer, no earlier one
   of its id is open, and fewer than 16 ids are open.
   */
  lemma RequestTakenIff(ops: seq<Op>, id: nat, context: nat, hasCallback: bool, hasTimer: bool)
    ensures
      var request := Queue(id, context, hasCallback, hasTimer);
      AcceptedFor(Final(map[], ops), request, id) == [context] <==>
        hasCallback && hasTimer && id !in OpenIds(ops) && |OpenIds(ops)| < 16
  {
    OpenIsPending(ops);
    assert |Final(map[], ops)| == |Final(map[], ops).Keys|;
  }

  // ----- Slots

  datatype Slot = Slot(active: bool, id: nat, context: nat)

  ghost predicate Unique(slots: seq<Slot>) {
    forall i, j :: 0 <= i < j < |slots| && slots[i].active && slots[j].active ==> slots[i].id != slots[j].id
  }

  ghost function PendingIn(slots: seq<Slot>): Pending {
    if slots == [] then map[]
    else
      var rest := PendingIn(slots[1..]);
      if slots[0].active then rest[slots[0].id := slots[0].context] else rest
  }

  /** A request is pending exactly if an active slot holds it. */
  lemma {:induction false} PendingIff(slots: seq<Slot>, id: nat)
    ensures id in PendingIn(slots) <==> exists i :: 0 <= i < |slots| && slots[i].active && slots[i].id == id
  {
    if slots != [] {
      PendingIff(slots[1..], id);
      if id in PendingIn(slots[1..]) {
        var i :| 0 <= i < |slots[1..]| && slots[1..][i].active && slots[1..][i].id == id;
        assert slots[i + 1].active && slots[i + 1].id == id;
      }
      if i :| 0 <= i < |slots| && slots[i].active && slots[i].id == id {
        assert i == 0 || slots[1..][i - 1] == slots[i];
      }
    }
  }

  /** Switching a slot on adds its request. */
  lemma {:induction false} PendingAdds(slots: seq<Slot>, k: nat, id: nat, context: nat)
    requires k < |slots| && !slots[k].active && id !in PendingIn(slots)
    ensures PendingIn(slots[k := Slot(true, id, context)]) == PendingIn(slots)[id := context]
  {
    var slots' := slots[k := Slot(true, id, context)];
    if k == 0 {
      assert slots'[1..] == slots[1..];
    } else {
      assert slots'[1..] == slots[1..][k - 1 := Slot(true, id, context)];
      PendingAdds(slots[1..], k - 1, id, context);
    }
  }

  /** Switching a slot off removes its request. */
  lemma {:induction false} PendingRemoves(slots: seq<Slot>, k: nat, off: Slot)
    requires k < |slots| && slots[k].active && !off.active && Unique(slots)
    ensures PendingIn(slots[k := off]) == PendingIn(slots) - {slots[k].id}
    ensures slots[k].id in PendingIn(slots) && PendingIn(slots)[slots[k].id] == slots[k].context
  {
    var slots', rest := slots[k := off], slots[1..];
    if k == 0 {
      assert slots'[1..] == rest;
      PendingIff(rest, slots[0].id);
      assert forall i :: 0 <= i < |rest| ==> rest[i] == slots[i + 1];
    } else {
      assert slots'[1..] == rest[k - 1 := off];
      assert Unique(rest);
      PendingRemoves(rest, k - 1, off);
    }
  }

  ghost function NumActive(slots: seq<Slot>): nat {
    if slots == [] then 0 else (if slots[0].active then 1 else 0) + NumActive(slots[1..])
  }

  /** There are as many pending requests as active slots. */
  lemma {:induction false} PendingSize(slots: seq<Slot>)
    requires Unique(slots)
    ensures |PendingIn(slots)| == NumActive(slots) <= |slots|
  {
    if slots != [] {
      var rest := slots[1..];
      assert Unique(rest);
      PendingSize(rest);
      if slots[0].active {
        PendingIff(rest, slots[0].id);
        assert forall i :: 0 <= i < |rest| ==> rest[i] == slots[i + 1];
        assert slots[0].id !in PendingIn(rest);
        assert PendingIn(slots).Keys == PendingIn(rest).Keys + {slots[0].id};
      }
    }
  }

  lemma {:induction false} FullIff(slots: seq<Slot>)
    ensures NumActive(slots) == |slots| <==> forall i :: 0 <= i < |slots| ==> slots[i].active
    ensures NumActive(slots) <= |slots|
  {
    if slots != [] {
      FullIff(slots[1..]);
      assert forall i :: 0 <= i < |slots[1..]| ==> slots[1..][i] == slots[i + 1];
      assert (forall i :: 0 <= i < |slots| ==> slots[i].active) <==>
             (slots[0].active && forall i :: 0 <= i < |slots[1..]| ==> slots[1..][i].active);
    }
  }

  lemma {:induction false} InactiveIgnored(slots: seq<Slot>, k: nat, off: Slot)
    requires k < |slots| && !slots[k].active && !off.active
    ensures PendingIn(slots[k := off]) == PendingIn(slots)
  {
    var slots' := slots[k := off];
    if k == 0 {
      assert slots'[1..] == slots[1..];
    } else {
      assert slots'[1..] == slots[1..][k - 1 := off];
      InactiveIgnored(slots[1..], k - 1, off);
    }
  }

  // ----- The object

  class Table {
    const slots: array<Slot>
    var queueCount: nat
    var calls: seq<(nat, nat)>   // callbacks made so far: message id and context

    /** Active slots hold different ids and lie below the mark, which is no higher than needed. */
    ghost predicate Valid()
      reads this, slots
    {
      && slots.Length == MAX_PENDING && Unique(slots[..]) && queueCount <= MAX_PENDING
      && (forall i :: 0 <= i < MAX_PENDING && slots[i].active ==> i < queueCount)
      && (0 < queueCount ==> slots[queueCount - 1].active)
    }

    ghost function Value(): Pending
      reads this, slots
    {
      PendingIn(slots[..])
    }

    constructor ()
      ensures Valid() && fresh(slots) && Value() == map[] && calls == []
    {
      slots := new Slot[MAX_PENDING](_ => Slot(false, 0, 0));
      queueCount, calls := 0, [];
      new;
      NothingPending(slots[..]);
    }

    /** The search stops at the mark and still misses no pending request. */
    method FindQueueEntry(id: nat) returns (r: Option<nat>)
      requires Valid()
      ensures r.Some? ==> r.value < MAX_PENDING && slots[r.value].active && slots[r.value].id == id
      ensures r.Some? <==> id in Value()
    {
      PendingIff(slots[..], id);
      for i := 0 to queueCount
        invariant forall k :: 0 <= k < i ==> !(slots[k].active && slots[k].id == id)
      {
        if slots[i].active && slots[i].id == id {
          assert slots[..][i] == slots[i];
          return Some(i);
        }
      }
      return None;
    }

    method FindFreeSlot() returns (r: nat)
      requires Valid()
      ensures r < MAX_PENDING ==> !slots[r].active
      ensures r < MAX_PENDING <==> |Value()| < MAX_PENDING
    {
      PendingSize(slots[..]);
      FullIff(slots[..]);
      for i := 0 to MAX_PENDING
        invariant forall k :: 0 <= k < i ==> slots[k].active
      {
        if !slots[i].active {
          assert !slots[..][i].active;
          return i;
        }
      }
      return MAX_PENDING;
    }

    method QueueResponse(id: nat, context: nat, hasCallback: bool, hasTimer: bool) returns (ok: bool)
      requires Valid()
      modifies this`queueCount, slots
      ensures Valid() && ok == Accepts(old(Value()), Queue(id, context, hasCallback, hasTimer))
      ensures Value() == Step(old(Value()), Queue(id, context, hasCallback, hasTimer))
    {
      if !hasCallback { return false; }
      var present := FindQueueEntry(id);
      if present.Some? { return false; }
      var slot := FindFreeSlot();
      if slot >= MAX_PENDING { return false; }
      if !hasTimer {
        SetInactive(slot, id, context);
        return false;
      }
      Activate(slot, id, context);
      if slot >= queueCount {
        queueCount := slot + 1;
      }
      return true;
    }

    /** The slot is filled in, and switched off again when no timer could be started. */
    method SetInactive(slot: nat, id: nat, context: nat)
      requires Valid() && slot < MAX_PENDING && !slots[slot].active
      modifies slots
      ensures Valid() && Value() == old(Value())
    {
      InactiveIgnored(slots[..], slot, Slot(false, id, context));
      slots[slot] := Slot(false, id, context);
      assert slots[..] == old(slots[..])[slot := Slot(false, id, context)];
    }

    method Activate(slot: nat, id: nat, context: nat)
      requires Valid() && slot < MAX_PENDING && !slots[slot].active && id !in Value()
      modifies slots
      ensures slots.Length == MAX_PENDING && Unique(slots[..]) && slots[slot].active
      ensures forall i :: 0 <= i < MAX_PENDING && i != slot ==> slots[i] == old(slots[i])
      ensures Value() == old(Value())[id := context]
    {
      ghost var was := slots[..];
      PendingAdds(was, slot, id, context);
      PendingIff(was, id);
      slots[slot] := Slot(true, id, context);
      assert slots[..] == was[slot := Slot(true, id, context)];
    }

    /** DiagResponse_HandleResponse; DiagResponse_HandleTimeout does the same without an answer. */
    method HandleResponse(id: nat) returns (ok: bool)
      requires Valid()
      modifies this, slots
      ensures Valid() && ok == (id in old(Value())) && Value() == Step(old(Value()), Complete(id))
      ensures calls == old(calls) + if ok then [(id, old(Value())[id])] else []
    {
      var entry := FindQueueEntry(id);
      if entry.None? {
        assert Value() - {id} == Value();
        return false;
      }
      PendingRemoves(slots[..], entry.value, Slot(false, 0, 0));
      calls := calls + [(id, slots[entry.value].context)];
      CleanupQueueEntry(entry.value);
      return true;
    }

    method CleanupQueueEntry(entry: nat)
      requires Valid() && entry < MAX_PENDING && slots[entry].active
      modifies this`queueCount, slots
      ensures Valid() && slots[..] == old(slots[..])[entry := Slot(false, 0, 0)]
    {
      slots[entry] := Slot(false, 0, 0);
      while queueCount > 0 && !slots[queueCount - 1].active
        invariant queueCount <= MAX_PENDING && slots[..] == old(slots[..])[entry := Slot(false, 0, 0)]
        invariant forall i :: 0 <= i < MAX_PENDING && slots[i].active ==> i < queueCount
      {
        queueCount := queueCount - 1;
      }
    }
  }

  lemma {:induction false} NothingPending(slots: seq<Slot>)
    requires forall i :: 0 <= i < |slots| ==> !slots[i].active
    ensures PendingIn(slots) == map[]
  {
    if slots != [] {
      NothingPending(slots[1..]);
    }
  }
}
