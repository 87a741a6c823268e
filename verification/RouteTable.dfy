/**
 The diagnostic route table of src/runtime/diagnostic/route_table.c: 32 entries that are
 never reused, chained by index from 16 hash buckets, newest first.
 */
module RouteTable {
  import opened Basics

  const MAX_ENTRIES: nat := 32
  const HASH_SIZE: nat := 16
  const NIL: nat := 0xFF

  datatype Route = Route(source: nat, target: nat, service: nat)

  function CalcHash(source: nat, target: nat): (h: nat)
    ensures h < HASH_SIZE
  {
    (source * 7 + target * 13) % HASH_SIZE
  }

  function Hash(r: Route): nat { CalcHash(r.source, r.target) }

  predicate Matches(r: Route, source: nat, target: nat) { r.source == source && r.target == target }

  // ----- The table as a list of routes, newest first

  /** The newest route for a pair of addresses. */
  function Newest(routes: seq<Route>, source: nat, target: nat): Option<Route> {
    if routes == [] then None
    else if Matches(routes[0], source, target) then Some(routes[0])
    else Newest(routes[1..], source, target)
  }

  function WithoutNewest(routes: seq<Route>, source: nat, target: nat): seq<Route> {
    if routes == [] then []
    else if Matches(routes[0], source, target) then routes[1..]
    else [routes[0]] + WithoutNewest(routes[1..], source, target)
  }

  /** The routes of one bucket. */
  function Bucket(routes: seq<Route>, h: nat): seq<Route> {
    if routes == [] then []
    else (if Hash(routes[0]) == h then [routes[0]] else []) + Bucket(routes[1..], h)
  }

  /** Looking into the one bucket finds what looking through the whole table finds. */
  lemma {:induction false} NewestInBucket(routes: seq<Route>, source: nat, target: nat)
    ensures Newest(Bucket(routes, CalcHash(source, target)), source, target) == Newest(routes, source, target)
  {
    if routes != [] {
      var h := CalcHash(source, target);
      NewestInBucket(routes[1..], source, target);
      if Hash(routes[0]) == h {
        assert Bucket(routes, h)[1..] == Bucket(routes[1..], h);
      } else {
        assert Bucket(routes, h) == Bucket(routes[1..], h);
      }
    }
  }

  /** Removing from the one bucket removes from the whole table. */
  lemma {:induction false} WithoutNewestInBucket(routes: seq<Route>, source: nat, target: nat, h: nat)
    ensures Bucket(WithoutNewest(routes, source, target), h) ==
            if h == CalcHash(source, target) then WithoutNewest(Bucket(routes, h), source, target)
            else Bucket(routes, h)
  {
    if routes != [] {
      var rest := routes[1..];
      WithoutNewestInBucket(rest, source, target, h);
      if Hash(routes[0]) == h {
        assert Bucket(routes, h)[1..] == Bucket(rest, h);
      } else {
        assert Bucket(routes, h) == Bucket(rest, h);
      }
      if !Matches(routes[0], source, target) {
        assert WithoutNewest(routes, source, target)[1..] == WithoutNewest(rest, source, target);
      }
    }
  }

  /** Deleting position `j` is removing the newest, when it is the first that matches. */
  lemma {:induction false} FirstMatchIsNewest(routes: seq<Route>, source: nat, target: nat, j: nat)
    requires j < |routes| && Matches(routes[j], source, target)
    requires forall i :: 0 <= i < j ==> !Matches(routes[i], source, target)
    ensures Newest(routes, source, target) == Some(routes[j])
    ensures WithoutNewest(routes, source, target) == routes[..j] + routes[j + 1..]
  {
    if j != 0 {
      FirstMatchIsNewest(routes[1..], source, target, j - 1);
      assert [routes[0]] + (routes[1..][..j - 1] + routes[1..][j..]) == routes[..j] + routes[j + 1..];
    }
  }

  lemma {:induction false} NoMatchNoNewest(routes: seq<Route>, source: nat, target: nat)
    requires forall i :: 0 <= i < |routes| ==> !Matches(routes[i], source, target)
    ensures Newest(routes, source, target) == None
    ensures WithoutNewest(routes, source, target) == routes
  {
    if routes != [] {
      NoMatchNoNewest(routes[1..], source, target);
    }
  }

  // ----- Every run: each pair of addresses owns a stack of services

  datatype Op = Add(route: Route) | Remove(source: nat, target: nat)

  /** The list and the number of entries handed out so far, after one call. */
  function Step(routes: seq<Route>, count: nat, op: Op): (seq<Route>, nat) {
    match op
    case Add(r) => if count >= MAX_ENTRIES then (routes, count) else ([r] + routes, count + 1)
    case Remove(s, t) => (WithoutNewest(routes, s, t), count)
  }

  function Run(routes: seq<Route>, count: nat, ops: seq<Op>): (seq<Route>, nat)
    decreases |ops|
  {
    if ops == [] then (routes, count)
    else
      var (routes', count') := Step(routes, count, ops[0]);
      Run(routes', count', ops[1..])
  }

  /** The services of one pair of addresses, newest first. */
  function Services(routes: seq<Route>, source: nat, target: nat): seq<nat> {
    if routes == [] then []
    else
      (if Matches(routes[0], source, target) then [routes[0].service] else []) + Services(routes[1..], source, target)
  }

  /** The stack of one pair of addresses: its own adds push while entries last, its own removes pop. */
  function StackRun(stack: seq<nat>, count: nat, ops: seq<Op>, source: nat, target: nat): seq<nat>
    decreases |ops|
  {
    if ops == [] then stack
    else match ops[0]
      case Add(r) =>
        if count >= MAX_ENTRIES then StackRun(stack, count, ops[1..], source, target)
        else StackRun(if Matches(r, source, target) then [r.service] + stack else stack, count + 1, ops[1..],
                      source, target)
      case Remove(s, t) =>
        StackRun(if s == source && t == target && stack != [] then stack[1..] else stack, count, ops[1..],
                 source, target)
  }

  lemma {:induction false} ServicesWithout(routes: seq<Route>, s: nat, t: nat, source: nat, target: nat)
    ensures
      var stack := Services(routes, source, target);
      Services(WithoutNewest(routes, s, t), source, target) ==
      if s == source && t == target && stack != [] then stack[1..] else stack
  {
    if routes != [] {
      var rest := routes[1..];
      ServicesWithout(rest, s, t, source, target);
      if !Matches(routes[0], s, t) {
        assert WithoutNewest(routes, s, t)[1..] == WithoutNewest(rest, s, t);
      }
      if Matches(routes[0], source, target) {
        assert Services(routes, source, target)[1..] == Services(rest, source, target);
      }
    }
  }

  /** After any adds and removes each pair holds exactly what its own calls pushed and did not pop. */
  lemma {:induction false} RunIsStacks(routes: seq<Route>, count: nat, ops: seq<Op>, source: nat, target: nat)
    ensures Services(Run(routes, count, ops).0, source, target)
            == StackRun(Services(routes, source, target), count, ops, source, target)
    decreases |ops|
  {
    if ops != [] {
      match ops[0] {
        case Add(r) =>
          assert ([r] + routes)[0] == r && ([r] + routes)[1..] == routes;
          assert [] + Services(routes, source, target) == Services(routes, source, target);
        case Remove(s, t) =>
          ServicesWithout(routes, s, t, source, target);
      }
      var (routes', count') := Step(routes, count, ops[0]);
      RunIsStacks(routes', count', ops[1..], source, target);
    }
  }

  /** A lookup answers the top of the stack, and nothing exactly when the stack is empty. */
  lemma {:induction false} NewestIsTop(routes: seq<Route>, source: nat, target: nat)
    ensures
      var stack := Services(routes, source, target);
      Newest(routes, source, target) == if stack == [] then None else Some(Route(source, target, stack[0]))
  {
    if routes != [] {
      NewestIsTop(routes[1..], source, target);
    }
  }

  // ----- The object

  datatype Entry = Entry(route: Route, next: nat)

  /** From `head` a chain runs down through indices below `limit` and holds the routes of its bucket. */
  ghost predicate ChainHolds(es: seq<Entry>, head: nat, limit: nat, bucket: seq<Route>)
    decreases |bucket|
  {
    && limit <= |es|
    && if bucket == [] then head == NIL
       else head < limit && es[head].route == bucket[0] && ChainHolds(es, es[head].next, head, bucket[1..])
  }

  /** The `j`-th entry of a chain; one past the end it is the end mark. */
  ghost function ChainAt(es: seq<Entry>, head: nat, limit: nat, bucket: seq<Route>, j: nat): nat
    requires ChainHolds(es, head, limit, bucket) && j <= |bucket|
    decreases j
  {
    if j == 0 then head else ChainAt(es, es[head].next, head, bucket[1..], j - 1)
  }

  lemma {:induction false} ChainAtStep(es: seq<Entry>, head: nat, limit: nat, bucket: seq<Route>, j: nat)
    requires ChainHolds(es, head, limit, bucket) && j <= |bucket|
    ensures
      var idx := ChainAt(es, head, limit, bucket, j);
      if j == |bucket| then idx == NIL
      else
        && idx < limit && es[idx].route == bucket[j]
        && ChainAt(es, head, limit, bucket, j + 1) == es[idx].next
    decreases j
  {
    if j != 0 {
      ChainAtStep(es, es[head].next, head, bucket[1..], j - 1);
    }
  }

  /** A chain does not notice changes at or above its limit, nor at entries with foreign routes. */
  lemma {:induction false} ChainFrame(es: seq<Entry>, es': seq<Entry>, head: nat, limit: nat, limit': nat,
                                      bucket: seq<Route>, k: nat)
    requires ChainHolds(es, head, limit, bucket) && limit <= limit' <= |es'| == |es|
    requires forall i :: 0 <= i < |es| && i != k ==> es'[i] == es[i]
    requires limit <= k || (k < limit && es[k].route !in bucket)
    ensures ChainHolds(es', head, limit', bucket)
    decreases |bucket|
  {
    if bucket != [] {
      assert head != k;
      ChainFrame(es, es', es[head].next, head, head, bucket[1..], k);
    }
  }

  lemma {:induction false} BucketHash(routes: seq<Route>, h: nat)
    ensures forall r :: r in Bucket(routes, h) ==> Hash(r) == h
  {
    if routes != [] {
      BucketHash(routes[1..], h);
    }
  }

  lemma BucketAdds(routes: seq<Route>, r: Route, h: nat)
    ensures Bucket([r] + routes, h) == if Hash(r) == h then [r] + Bucket(routes, h) else Bucket(routes, h)
  {
    assert ([r] + routes)[1..] == routes;
  }

  /** Redirecting the link to position `j > 0` takes that position out of the chain. */
  lemma {:induction false} UnlinkHolds(es: seq<Entry>, head: nat, limit: nat, bucket: seq<Route>, j: nat)
    requires ChainHolds(es, head, limit, bucket) && 0 < j < |bucket|
    ensures
      var link, idx := ChainAt(es, head, limit, bucket, j - 1), ChainAt(es, head, limit, bucket, j);
      && idx < link < limit
      && ChainHolds(es[link := es[link].(next := es[idx].next)], head, limit, bucket[..j] + bucket[j + 1..])
    decreases j
  {
    var rest := bucket[1..];
    var short := bucket[..j] + bucket[j + 1..];
    if j == 1 {
      var idx := es[head].next;
      assert ChainAt(es, idx, head, rest, 0) == idx;
      ChainFrame(es, es[head := es[head].(next := es[idx].next)], es[idx].next, idx, head, rest[1..], head);
      assert short[1..] == rest[1..];
    } else {
      UnlinkHolds(es, es[head].next, head, rest, j - 1);
      assert short[1..] == rest[..j - 1] + rest[j..];
    }
  }

  class Table {
    const entries: array<Entry>
    const hashTable: array<nat>
    var entryCount: nat
    ghost var routes: seq<Route>   // the live routes, newest first

    /** Every bucket heads a chain of its live routes through ever smaller indices. */
    ghost predicate Valid()
      reads this, entries, hashTable
    {
      && entries.Length == MAX_ENTRIES && hashTable.Length == HASH_SIZE && entryCount <= MAX_ENTRIES
      && forall h :: 0 <= h < HASH_SIZE ==> ChainHolds(entries[..], hashTable[h], entryCount, Bucket(routes, h))
    }

    constructor ()
      ensures Valid() && fresh(entries) && fresh(hashTable)
      ensures routes == [] && entryCount == 0
    {
      entries := new Entry[MAX_ENTRIES](_ => Entry(Route(0, 0, 0), 0));
      hashTable := new nat[HASH_SIZE](_ => NIL);
      entryCount, routes := 0, [];
    }

    /** The walk of lookup and removal: the first match of the bucket and the link that leads to it. */
    method Walk(source: nat, target: nat) returns (link: Option<nat>, idx: nat, ghost j: nat)
      requires Valid()
      ensures
        var h := CalcHash(source, target);
        var bucket := Bucket(routes, h);
        && (idx == NIL ==> Newest(routes, source, target) == None)
        && (idx != NIL ==>
              && idx < entryCount && j < |bucket|
              && ChainHolds(entries[..], hashTable[h], entryCount, bucket)
              && idx == ChainAt(entries[..], hashTable[h], entryCount, bucket, j)
              && link == (if j == 0 then None else Some(ChainAt(entries[..], hashTable[h], entryCount, bucket, j - 1)))
              && Newest(routes, source, target) == Some(entries[idx].route)
              && WithoutNewest(bucket, source, target) == bucket[..j] + bucket[j + 1..])
    {
      var h := CalcHash(source, target);
      ghost var es, head, bucket := entries[..], hashTable[h], Bucket(routes, h);
      assert ChainHolds(es, head, entryCount, bucket);
      NewestInBucket(routes, source, target);
      link, idx, j := None, hashTable[h], 0;
      while idx != NIL
        invariant j <= |bucket| && idx == ChainAt(es, head, entryCount, bucket, j)
        invariant link == if j == 0 then None else Some(ChainAt(es, head, entryCount, bucket, j - 1))
        invariant forall i :: 0 <= i < j ==> !Matches(bucket[i], source, target)
        invariant idx == NIL ==> j == |bucket|
        decreases |bucket| - j
      {
        ChainAtStep(es, head, entryCount, bucket, j);
        var entry := entries[idx];
        if entry.route.source == source && entry.route.target == target {
          FirstMatchIsNewest(bucket, source, target, j);
          return;
        }
        link, idx, j := Some(idx), entry.next, j + 1;
        ChainAtStep(es, head, entryCount, bucket, j);
      }
      NoMatchNoNewest(bucket, source, target);
    }

    method Find(source: nat, target: nat) returns (r: Option<nat>)
      requires Valid()
      ensures r.None? ==> Newest(routes, source, target) == None
      ensures r.Some? ==> r.value < entryCount && Newest(routes, source, target) == Some(entries[r.value].route)
    {
      var _, idx, _ := Walk(source, target);
      r := if idx != NIL then Some(idx) else None;
    }

    method Add(source: nat, target: nat, service: nat) returns (ok: bool)
      requires Valid()
      modifies this, entries, hashTable
      ensures Valid() && ok == (old(entryCount) < MAX_ENTRIES)
      ensures (routes, entryCount) == Step(old(routes), old(entryCount), Op.Add(Route(source, target, service)))
    {
      if entryCount >= MAX_ENTRIES { return false; }
      var h, idx := CalcHash(source, target), entryCount;
      var route := Route(source, target, service);
      ghost var es := entries[..];
      entries[idx] := Entry(route, hashTable[h]);
      hashTable[h] := idx;
      entryCount := entryCount + 1;
      routes := [route] + routes;
      forall g | 0 <= g < HASH_SIZE
        ensures ChainHolds(entries[..], hashTable[g], entryCount, Bucket(routes, g))
      {
        ghost var bucket, head := Bucket(old(routes), g), old(hashTable[g]);
        assert ChainHolds(es, head, idx, bucket);
        BucketAdds(old(routes), route, g);
        ChainFrame(es, entries[..], head, idx, if g == h then idx else idx + 1, bucket, idx);
        assert g == h ==> ([route] + bucket)[1..] == bucket;
      }
      return true;
    }

    method Remove(source: nat, target: nat) returns (ok: bool)
      requires Valid()
      modifies this, entries, hashTable
      ensures Valid() && ok == old(Newest(routes, source, target)).Some?
      ensures (routes, entryCount) == Step(old(routes), old(entryCount), Op.Remove(source, target))
    {
      var link, idx, j := Walk(source, target);
      if idx == NIL {
        WithoutAbsent(routes, source, target);
        return false;
      }
      Unlink(CalcHash(source, target), link, entries[idx].next, source, target, j);
      return true;
    }

    /** Redirects the link that leads to position `j` of the chain. */
    method Unlink(h: nat, link: Option<nat>, next: nat, ghost source: nat, ghost target: nat, ghost j: nat)
      requires Valid() && h == CalcHash(source, target) && j < |Bucket(routes, h)|
      requires Leads(h, link, next, j)
      requires WithoutNewest(Bucket(routes, h), source, target) == Bucket(routes, h)[..j] + Bucket(routes, h)[j + 1..]
      modifies this`routes, entries, hashTable
      ensures Valid() && routes == WithoutNewest(old(routes), source, target)
    {
      if link == None {
        RedirectHead(h, next);
      } else {
        RedirectEntry(h, link.value, next, j);
      }
      routes := WithoutNewest(routes, source, target);
      forall g | 0 <= g < HASH_SIZE
        ensures ChainHolds(entries[..], hashTable[g], entryCount, Bucket(routes, g))
      {
        WithoutNewestInBucket(old(routes), source, target, g);
      }
    }

    /** The link leads to position `j` of bucket `h`, whose entry goes on to `next`. */
    ghost predicate Leads(h: nat, link: Option<nat>, next: nat, j: nat)
      reads this, entries, hashTable
      requires Valid() && h < HASH_SIZE && j < |Bucket(routes, h)|
    {
      var es, head, bucket := entries[..], hashTable[h], Bucket(routes, h);
      && ChainHolds(es, head, entryCount, bucket)
      && link == (if j == 0 then None else Some(ChainAt(es, head, entryCount, bucket, j - 1)))
      && var idx := ChainAt(es, head, entryCount, bucket, j); idx < entryCount && next == es[idx].next
    }

    method RedirectHead(h: nat, next: nat)
      requires Valid() && h < HASH_SIZE && Bucket(routes, h) != [] && Leads(h, None, next, 0)
      modifies hashTable
      ensures forall g :: 0 <= g < HASH_SIZE ==> ChainHolds(entries[..], hashTable[g], entryCount,
        if g == h then Bucket(routes, g)[..0] + Bucket(routes, g)[1..] else Bucket(routes, g))
    {
      ghost var es, head, bucket := entries[..], hashTable[h], Bucket(routes, h);
      ChainFrame(es, es, next, head, entryCount, bucket[1..], |es|);
      assert bucket[..0] + bucket[1..] == bucket[1..];
      hashTable[h] := next;
    }

    method RedirectEntry(h: nat, k: nat, next: nat, ghost j: nat)
      requires Valid() && h < HASH_SIZE && 0 < j < |Bucket(routes, h)| && Leads(h, Some(k), next, j)
      modifies entries
      ensures forall g :: 0 <= g < HASH_SIZE ==> ChainHolds(entries[..], hashTable[g], entryCount,
        if g == h then Bucket(routes, g)[..j] + Bucket(routes, g)[j + 1..] else Bucket(routes, g))
    {
      ghost var es, head, bucket := entries[..], hashTable[h], Bucket(routes, h);
      UnlinkHolds(es, head, entryCount, bucket, j);
      ChainAtStep(es, head, entryCount, bucket, j - 1);
      entries[k] := entries[k].(next := next);
      ghost var es' := entries[..];
      assert es' == es[k := es[k].(next := next)];
      forall g | 0 <= g < HASH_SIZE && g != h
        ensures ChainHolds(es', hashTable[g], entryCount, Bucket(routes, g))
      {
        assert ChainHolds(es, hashTable[g], entryCount, Bucket(routes, g));
        OtherBucketHolds(es, es', hashTable[g], entryCount, routes, g, h, k, j - 1);
      }
    }
  }

  /** Changing an entry of one bucket leaves the chains of the others alone. */
  lemma OtherBucketHolds(es: seq<Entry>, es': seq<Entry>, head: nat, limit: nat, routes: seq<Route>,
                         g: nat, h: nat, k: nat, j: nat)
    requires ChainHolds(es, head, limit, Bucket(routes, g)) && |es'| == |es| && g != h && k < limit
    requires forall i :: 0 <= i < |es| && i != k ==> es'[i] == es[i]
    requires j < |Bucket(routes, h)| && es[k].route == Bucket(routes, h)[j]
    ensures ChainHolds(es', head, limit, Bucket(routes, g))
  {
    BucketHash(routes, g);
    BucketHash(routes, h);
    ChainFrame(es, es', head, limit, limit, Bucket(routes, g), k);
  }

  lemma {:induction false} WithoutAbsent(routes: seq<Route>, source: nat, target: nat)
    requires Newest(routes, source, target) == None
    ensures WithoutNewest(routes, source, target) == routes
  {
    if routes != [] {
      WithoutAbsent(routes[1..], source, target);
    }
  }
}
