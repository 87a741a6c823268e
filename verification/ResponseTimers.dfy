/**
 The timers behind the table of src/runtime/diagnostic/diag_response.c. A timer is started for
 every accepted request and is never stopped when the request ends, and when it expires it is
 the message id that is looked up. So a timer can end a later request with the same id; the main
 result says exactly which runs are free of that.
 */
module ResponseTimers {
  import DiagResponse

  type Pending = DiagResponse.Pending

  /** Requests are numbered as they are accepted: whose request is pending, and the timers that still run. */
  datatype State = State(pending: Pending, owner: map<nat, nat>, timers: map<nat, nat>, next: nat)

  const START := State(map[], map[], map[], 0)

  /** A request, an answer, or the expiry of the timer of request number `serial`. */
  datatype Event = Ask(id: nat, context: nat, hasCallback: bool, hasTimer: bool)
                 | Answer(id: nat)
                 | Expire(serial: nat)

  predicate Accepted(s: State, e: Event) {
    e.Ask? && DiagResponse.Accepts(s.pending, DiagResponse.Queue(e.id, e.context, e.hasCallback, e.hasTimer))
  }

  function Ended(s: State, id: nat): State { s.(pending := s.pending - {id}, owner := s.owner - {id}) }

  function Next(s: State, e: Event): State {
    match e
    case Ask(id, context, _, _) =>
      if Accepted(s, e)
      then State(s.pending[id := context], s.owner[id := s.next], s.timers[s.next := id], s.next + 1)
      else s
    case Answer(id) => Ended(s, id)
    case Expire(serial) =>
      if serial in s.timers
      then Ended(s, s.timers[serial]).(timers := s.timers - {serial})
      else s
  }

  ghost function Run(s: State, es: seq<Event>): State
    decreases |es|
  {
    if es == [] then s else Run(Next(s, es[0]), es[1..])
  }

  // ----- The table below

  /** What an event is for the table of pending requests. */
  function TableOp(s: State, e: Event): seq<DiagResponse.Op> {
    match e
    case Ask(id, context, hasCallback, hasTimer) => [DiagResponse.Queue(id, context, hasCallback, hasTimer)]
    case Answer(id) => [DiagResponse.Complete(id)]
    case Expire(serial) => if serial in s.timers then [DiagResponse.Complete(s.timers[serial])] else []
  }

  ghost function TableOps(s: State, es: seq<Event>): seq<DiagResponse.Op>
    decreases |es|
  {
    if es == [] then [] else TableOp(s, es[0]) + TableOps(Next(s, es[0]), es[1..])
  }

  /** The pending requests are those of the table, so each request is called back once here too. */
  lemma {:induction false} TableFollows(s: State, es: seq<Event>)
    ensures Run(s, es).pending == DiagResponse.Final(s.pending, TableOps(s, es))
    decreases |es|
  {
    if es != [] {
      var s', op, rest := Next(s, es[0]), TableOp(s, es[0]), TableOps(Next(s, es[0]), es[1..]);
      TableFollows(s', es[1..]);
      if op == [] {
        assert op + rest == rest;
      } else {
        assert (op + rest)[0] == op[0] && (op + rest)[1..] == rest;
      }
    }
  }

  // ----- Whose timer it is

  /** A pending request has its own timer running, and it is the newest of the timers for its id. */
  ghost predicate Sound(s: State) {
    && s.owner.Keys == s.pending.Keys
    && (forall n :: n in s.timers ==> n < s.next)
    && (forall id :: id in s.owner ==> s.owner[id] in s.timers && s.timers[s.owner[id]] == id)
    && (forall n :: n in s.timers && s.timers[n] in s.owner ==> n <= s.owner[s.timers[n]])
  }

  lemma EndedSound(s: State, id: nat)
    requires Sound(s)
    ensures Sound(Ended(s, id))
  {
    assert (s.pending - {id}).Keys == s.pending.Keys - {id} && (s.owner - {id}).Keys == s.owner.Keys - {id};
  }

  lemma ExpiredSound(s: State, serial: nat)
    requires Sound(s) && serial in s.timers && s.timers[serial] !in s.owner
    ensures Sound(s.(timers := s.timers - {serial}))
  {
  }

  lemma AcceptedSound(s: State, e: Event)
    requires Sound(s) && Accepted(s, e)
    ensures Sound(Next(s, e))
  {
  }

  lemma NextSound(s: State, e: Event)
    requires Sound(s)
    ensures Sound(Next(s, e))
  {
    match e
    case Ask(_, _, _, _) =>
      if Accepted(s, e) {
        AcceptedSound(s, e);
      }
    case Answer(id) =>
      EndedSound(s, id);
    case Expire(serial) =>
      if serial in s.timers {
        EndedSound(s, s.timers[serial]);
        ExpiredSound(Ended(s, s.timers[serial]), serial);
      }
  }

  lemma {:induction false} RunSound(s: State, es: seq<Event>)
    requires Sound(s)
    ensures Sound(Run(s, es))
    decreases |es|
  {
    if es != [] {
      NextSound(s, es[0]);
      RunSound(Next(s, es[0]), es[1..]);
    }
  }

  /** When the timer expires, a request is called back, but not the one the timer was started for. */
  predicate HitsOther(s: State, e: Event) {
    e.Expire? && e.serial in s.timers && s.timers[e.serial] in s.owner && s.owner[s.timers[e.serial]] != e.serial
  }

  /** In every reachable state: exactly if the id is pending and a newer timer for it is running. */
  lemma HitsOtherIff(es: seq<Event>, serial: nat)
    ensures
      var s := Run(START, es);
      HitsOther(s, Expire(serial)) <==>
        && serial in s.timers && s.timers[serial] in s.pending
        && exists n :: n in s.timers && serial < n && s.timers[n] == s.timers[serial]
  {
    var s := Run(START, es);
    RunSound(START, es);
    if HitsOther(s, Expire(serial)) {
      var n := s.owner[s.timers[serial]];
      assert n in s.timers && serial < n && s.timers[n] == s.timers[serial];
    }
  }

  // ----- Runs in which no timer hits another request

  ghost predicate Clean(s: State, es: seq<Event>)
    decreases |es|
  {
    es != [] ==> !HitsOther(s, es[0]) && Clean(Next(s, es[0]), es[1..])
  }

  ghost predicate HasTimer(s: State, id: nat) {
    exists n :: n in s.timers && s.timers[n] == id
  }

  /** No request is accepted under an id for which a timer still runs. */
  ghost predicate NoReuse(s: State, es: seq<Event>)
    decreases |es|
  {
    es != [] ==> (Accepted(s, es[0]) ==> !HasTimer(s, es[0].id)) && NoReuse(Next(s, es[0]), es[1..])
  }

  /** Only the own timer runs for a pending request. */
  ghost predicate OwnTimersOnly(s: State) {
    forall n :: n in s.timers && s.timers[n] in s.owner ==> n == s.owner[s.timers[n]]
  }

  lemma {:induction false} NoReuseClean(s: State, es: seq<Event>)
    requires Sound(s) && OwnTimersOnly(s) && NoReuse(s, es)
    ensures Clean(s, es)
    decreases |es|
  {
    if es != [] {
      NextSound(s, es[0]);
      NextOwnOnly(s, es[0]);
      NoReuseClean(Next(s, es[0]), es[1..]);
    }
  }

  lemma NextOwnOnly(s: State, e: Event)
    requires Sound(s) && OwnTimersOnly(s) && (Accepted(s, e) ==> !HasTimer(s, e.id))
    ensures OwnTimersOnly(Next(s, e))
  {
  }

  /** A request under an id with a running timer is called back when that timer expires, its own still running. */
  lemma ReuseHit(s: State, e: Event, serial: nat)
    requires Sound(s) && Accepted(s, e) && serial in s.timers && s.timers[serial] == e.id
    ensures
      var s' := Next(s, e);
      && HitsOther(s', Expire(serial))
      && s'.pending[e.id] == e.context && e.id !in Next(s', Expire(serial)).pending
      && s.next in Next(s', Expire(serial)).timers
  {
  }

  /** The first `k` events, and then a timer expires. */
  function Cut(es: seq<Event>, k: nat, serial: nat): seq<Event>
    requires k <= |es|
  {
    es[..k] + [Expire(serial)]
  }

  lemma CutFirst(es: seq<Event>, k: nat, serial: nat)
    requires 0 < k <= |es|
    ensures Cut(es, k, serial)[0] == es[0] && Cut(es, k, serial)[1..] == Cut(es[1..], k - 1, serial)
  {
  }

  lemma ReuseNow(s: State, es: seq<Event>) returns (serial: nat)
    requires es != [] && Sound(s) && Accepted(s, es[0]) && HasTimer(s, es[0].id)
    ensures !Clean(s, Cut(es, 1, serial))
  {
    serial :| serial in s.timers && s.timers[serial] == es[0].id;
    ReuseHit(s, es[0], serial);
    CutFirst(es, 1, serial);
  }

  /** After a reuse some timer can hit another request. */
  lemma {:induction false} ReuseNotClean(s: State, es: seq<Event>) returns (k: nat, serial: nat)
    requires Sound(s) && !NoReuse(s, es)
    ensures k <= |es| && !Clean(s, Cut(es, k, serial))
    decreases |es|
  {
    if Accepted(s, es[0]) && HasTimer(s, es[0].id) {
      serial := ReuseNow(s, es);
      k := 1;
    } else {
      var l;
      NextSound(s, es[0]);
      l, serial := ReuseNotClean(Next(s, es[0]), es[1..]);
      k := l + 1;
      CutFirst(es, k, serial);
    }
  }

  ghost predicate AlwaysClean(es: seq<Event>) {
    Clean(START, es) && forall k, serial :: 0 <= k <= |es| ==> Clean(START, Cut(es, k, serial))
  }

  /**
   Whichever timer expires at whatever point of a run, it ends no other request than its own,
   if and only if no id is used again while a timer for it is running.
   */
  lemma AlwaysCleanIff(es: seq<Event>)
    ensures AlwaysClean(es) <==> NoReuse(START, es)
  {
    if NoReuse(START, es) {
      NoReuseClean(START, es);
      forall k, serial | 0 <= k <= |es|
        ensures Clean(START, Cut(es, k, serial))
      {
        NoReusePrefix(START, es, k, serial);
        NoReuseClean(START, Cut(es, k, serial));
      }
    } else {
      var k, serial := ReuseNotClean(START, es);
    }
  }

  lemma {:induction false} NoReusePrefix(s: State, es: seq<Event>, k: nat, serial: nat)
    requires k <= |es| && NoReuse(s, es)
    ensures NoReuse(s, Cut(es, k, serial))
    decreases |es|
  {
    if k > 0 {
      CutFirst(es, k, serial);
      NoReusePrefix(Next(s, es[0]), es[1..], k - 1, serial);
    }
  }
}
