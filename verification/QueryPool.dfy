module QueryPool {
  // The in-flight queries of dnrd and its pool of query ids: ids are drawn from an array by
  // swapping with its last free cell and pushed back when a query ends; queries hang in a circular
  // list, which the time-out walks with a cursor that skips the query after each one it removes
  // and starts again when it removes the last.

  import opened Common

  const PoolSize: nat := 65536

  datatype Query = Query(myQid: int, clientQid: int, clientTime: int, clientCount: nat, ttl: int)

  /** The list in order, and the free ids: the cells of the pool up to pool_ptr. */
  datatype State = State(list: seq<Query>, free: seq<int>)

  function Ids(list: seq<Query>): (ids: seq<int>)
    ensures |ids| == |list| && forall i :: 0 <= i < |ids| ==> ids[i] == list[i].myQid
  {
    seq(|list|, i requires 0 <= i < |list| => list[i].myQid)
  }

  // ---------- The invariant ----------

  /** How often id is free or in flight. */
  ghost function Uses(s: State, id: int): nat {
    multiset(s.free)[id] + multiset(Ids(s.list))[id]
  }

  /** Every id is free once or in flight once. */
  ghost predicate Partition(s: State) {
    |s.free| + |s.list| == PoolSize && forall id :: Uses(s, id) == if 0 <= id < PoolSize then 1 else 0
  }

  ghost predicate ClientsDistinct(list: seq<Query>) {
    forall i, j :: 0 <= i < j < |list| ==> list[i].clientQid != list[j].clientQid
  }

  ghost predicate Inv(s: State) {
    Partition(s) && ClientsDistinct(s.list)
  }

  lemma InOnce(s: seq<int>, i: nat, j: nat)
    requires i < j < |s| && s[i] == s[j]
    ensures multiset(s)[s[i]] >= 2
  {
    assert s == s[..i] + [s[i]] + s[i + 1..j] + [s[j]] + s[j + 1..];
  }

  /** What the invariant means for ids: no two queries share one, none in flight is free, and
      each is one or the other. */
  lemma PartitionMeans(s: State)
    requires Partition(s)
    ensures forall i, j :: 0 <= i < j < |s.list| ==> s.list[i].myQid != s.list[j].myQid
    ensures forall i, j :: 0 <= i < j < |s.free| ==> s.free[i] != s.free[j]
    ensures forall i :: 0 <= i < |s.list| ==> 0 <= s.list[i].myQid < PoolSize && s.list[i].myQid !in s.free
    ensures forall id :: 0 <= id < PoolSize ==> id in s.free || id in Ids(s.list)
  {
    var ids := Ids(s.list);
    forall i, j | 0 <= i < j < |s.list|
      ensures s.list[i].myQid != s.list[j].myQid
    {
      assert Uses(s, ids[i]) <= 1;
      if ids[i] == ids[j] {
        InOnce(ids, i, j);
      }
    }
    forall i, j | 0 <= i < j < |s.free|
      ensures s.free[i] != s.free[j]
    {
      assert Uses(s, s.free[i]) <= 1;
      if s.free[i] == s.free[j] {
        InOnce(s.free, i, j);
      }
    }
    forall i | 0 <= i < |s.list|
      ensures 0 <= s.list[i].myQid < PoolSize && s.list[i].myQid !in s.free
    {
      assert ids[i] in multiset(ids);
      assert Uses(s, ids[i]) >= 1 + multiset(s.free)[ids[i]];
    }
    forall id | 0 <= id < PoolSize
      ensures id in s.free || id in ids
    {
      assert Uses(s, id) == 1;
    }
  }

  // ---------- The operations ----------

  function RemoveAt<T>(l: seq<T>, k: nat): (r: seq<T>)
    requires k < |l|
    ensures |r| == |l| - 1
    ensures forall i :: 0 <= i < |r| ==> r[i] == if i < k then l[i] else l[i + 1]
  {
    l[..k] + l[k + 1..]
  }

  /** qid_get at cell i: the last free cell fills the gap. */
  function Drawn(free: seq<int>, i: nat): (r: seq<int>)
    requires i < |free|
    ensures |r| == |free| - 1
  {
    free[i := free[|free| - 1]][..|free| - 1]
  }

  lemma DrawnOnce(free: seq<int>, i: nat)
    requires i < |free|
    ensures multiset(Drawn(free, i)) + multiset{free[i]} == multiset(free)
  {
    var n := |free| - 1;
    assert free == free[..n] + [free[n]];
    if i < n {
      assert free[..n] == free[..i] + [free[i]] + free[i + 1..n];
      assert Drawn(free, i) == free[..i] + [free[n]] + free[i + 1..n];
    } else {
      assert Drawn(free, i) == free[..n];
    }
  }

  /** The query with this client id, or |list|. */
  function FindClient(list: seq<Query>, clientQid: int, i: nat): (k: nat)
    requires i <= |list|
    ensures i <= k <= |list| && (k < |list| ==> list[k].clientQid == clientQid)
    ensures forall j :: i <= j < k ==> list[j].clientQid != clientQid
    decreases |list| - i
  {
    if i == |list| || list[i].clientQid == clientQid then i else FindClient(list, clientQid, i + 1)
  }

  /** query_add of a client id that is in the list. */
  function Repeated(s: State, k: nat, now: int): State
    requires k < |s.list|
  {
    s.(list := s.list[k := s.list[k].(clientTime := now, clientCount := s.list[k].clientCount + 1)])
  }

  /** query_add of a new client id, with the id of cell i. */
  function Entered(s: State, clientQid: int, now: int, ttl: int, i: nat): State
    requires i < |s.free|
  {
    State(s.list + [Query(s.free[i], clientQid, now, 1, ttl)], Drawn(s.free, i))
  }

  /** query_delete_next on the query at k. */
  function Removed(s: State, k: nat): State
    requires k < |s.list|
  {
    State(RemoveAt(s.list, k), s.free + [s.list[k].myQid])
  }

  /** The operations keep the partition: whatever an id is, it is that once. */
  lemma EnteredInv(s: State, clientQid: int, now: int, ttl: int, i: nat)
    requires Inv(s) && i < |s.free| && FindClient(s.list, clientQid, 0) == |s.list|
    ensures Inv(Entered(s, clientQid, now, ttl, i))
  {
    var s' := Entered(s, clientQid, now, ttl, i);
    DrawnOnce(s.free, i);
    assert Ids(s'.list) == Ids(s.list) + [s.free[i]];
    forall id
      ensures Uses(s', id) == Uses(s, id)
    {
      assert multiset(s.free)[id] == multiset(s'.free)[id] + multiset{s.free[i]}[id];
    }
  }

  lemma RepeatedInv(s: State, k: nat, now: int)
    requires Inv(s) && k < |s.list|
    ensures Inv(Repeated(s, k, now))
  {
    assert Ids(Repeated(s, k, now).list) == Ids(s.list);
    assert forall id :: Uses(Repeated(s, k, now), id) == Uses(s, id);
  }

  lemma RemoveAtOnce(l: seq<int>, k: nat)
    requires k < |l|
    ensures multiset(l) == multiset(RemoveAt(l, k)) + multiset{l[k]}
  {
    assert l == l[..k] + [l[k]] + l[k + 1..];
  }

  lemma RemovedInv(s: State, k: nat)
    requires Inv(s) && k < |s.list|
    ensures Inv(Removed(s, k))
  {
    var s', ids := Removed(s, k), Ids(s.list);
    assert Ids(s'.list) == RemoveAt(ids, k);
    RemoveAtOnce(ids, k);
    forall id
      ensures Uses(s', id) == Uses(s, id)
    {
      assert multiset(ids)[id] == multiset(RemoveAt(ids, k))[id] + multiset{ids[k]}[id];
    }
  }

  // ---------- The time-out ----------

  predicate Expired(q: Query, now: int) {
    q.clientTime < now - q.ttl
  }

  /** query_timeout with its cursor before the query at i. After a removal the cursor steps over
      the query that has moved up, or, if there is none, back to the head of the list. */
  function TimedOut(s: State, now: int, i: nat): (r: State)
    requires i <= |s.list|
    decreases |s.list|, |s.list| - i
  {
    if i == |s.list| then s
    else if Expired(s.list[i], now) then
      var s' := Removed(s, i);
      if i < |s'.list| then TimedOut(s', now, i + 1) else TimedOut(s', now, 0)
    else TimedOut(s, now, i + 1)
  }

  lemma {:induction false} TimedOutInv(s: State, now: int, i: nat)
    requires Inv(s) && i <= |s.list|
    ensures Inv(TimedOut(s, now, i))
    decreases |s.list|, |s.list| - i
  {
    if i < |s.list| {
      if Expired(s.list[i], now) {
        RemovedInv(s, i);
        TimedOutInv(Removed(s, i), now, if i < |s.list| - 1 then i + 1 else 0);
      } else {
        TimedOutInv(s, now, i + 1);
      }
    }
  }

  /** The unexpired queries of a list, in order. */
  function Live(list: seq<Query>, now: int): seq<Query> {
    if list == [] then []
    else if Expired(list[0], now) then Live(list[1..], now)
    else [list[0]] + Live(list[1..], now)
  }

  function Old(list: seq<Query>, now: int): nat {
    if list == [] then 0 else (if Expired(list[0], now) then 1 else 0) + Old(list[1..], now)
  }

  lemma {:induction false} LiveConcat(a: seq<Query>, b: seq<Query>, now: int)
    ensures Live(a + b, now) == Live(a, now) + Live(b, now)
    ensures Old(a + b, now) == Old(a, now) + Old(b, now)
  {
    if a == [] {
      assert a + b == b;
    } else {
      assert (a + b)[1..] == a[1..] + b;
      LiveConcat(a[1..], b, now);
    }
  }

  lemma OldStep(list: seq<Query>, now: int, i: nat)
    requires i < |list|
    ensures Old(list[..i + 1], now) == Old(list[..i], now) + (if Expired(list[i], now) then 1 else 0)
    ensures Old(list[i..], now) == (if Expired(list[i], now) then 1 else 0) + Old(list[i + 1..], now)
  {
    assert list[..i + 1] == list[..i] + [list[i]];
    LiveConcat(list[..i], [list[i]], now);
    assert list[i..][1..] == list[i + 1..];
  }

  lemma LiveGap(a: seq<Query>, q: Query, b: seq<Query>, now: int)
    requires Expired(q, now)
    ensures Live(a + [q] + b, now) == Live(a + b, now)
  {
    LiveConcat(a, b, now);
    LiveConcat(a, [q], now);
    LiveConcat(a + [q], b, now);
    assert Live([q], now) == [];
    assert Live(a, now) + [] == Live(a, now);
  }

  /** An expired query can go. */
  lemma LiveRemove(list: seq<Query>, now: int, i: nat)
    requires i < |list| && Expired(list[i], now)
    ensures Live(RemoveAt(list, i), now) == Live(list, now)
    ensures RemoveAt(list, i)[..i] == list[..i] && RemoveAt(list, i)[i..] == list[i + 1..]
    ensures Old(list[i..], now) == 1 + Old(list[i + 1..], now)
  {
    OldStep(list, now, i);
    assert list == list[..i] + [list[i]] + list[i + 1..];
    LiveGap(list[..i], list[i], list[i + 1..], now);
  }

  /** The time-out keeps the unexpired queries in their order, and of the expired ones at most
      those it had passed and half of the others. */
  lemma {:induction false} TimedOutKeeps(s: State, now: int, i: nat)
    requires i <= |s.list|
    ensures Live(TimedOut(s, now, i).list, now) == Live(s.list, now)
    ensures Old(TimedOut(s, now, i).list, now) <= Old(s.list[..i], now) + Old(s.list[i..], now) / 2
    decreases |s.list|, |s.list| - i
  {
    if i == |s.list| {
      assert s.list[..i] == s.list;
    } else if Expired(s.list[i], now) {
      var s' := Removed(s, i);
      LiveRemove(s.list, now, i);
      if i < |s'.list| {
        OldStep(s'.list, now, i);
        TimedOutKeeps(s', now, i + 1);
      } else {
        assert s'.list == s.list[..i] && s'.list[..0] == [] && s'.list[0..] == s'.list;
        TimedOutKeeps(s', now, 0);
      }
    } else {
      OldStep(s.list, now, i);
      TimedOutKeeps(s, now, i + 1);
    }
  }

  lemma {:induction false} SizeIsLiveAndOld(list: seq<Query>, now: int)
    ensures |list| == |Live(list, now)| + Old(list, now)
  {
    if list != [] {
      SizeIsLiveAndOld(list[1..], now);
    }
  }

  /** A time-out never removes an unexpired query, and removes at least half of the expired ones,
      so at least one if there is any. */
  lemma TimeoutHalves(s: State, now: int)
    ensures Live(TimedOut(s, now, 0).list, now) == Live(s.list, now)
    ensures Old(TimedOut(s, now, 0).list, now) <= Old(s.list, now) / 2
    ensures Old(s.list, now) > 0 ==> |TimedOut(s, now, 0).list| < |s.list|
  {
    assert s.list[..0] == [] && s.list[0..] == s.list;
    TimedOutKeeps(s, now, 0);
    SizeIsLiveAndOld(s.list, now);
    SizeIsLiveAndOld(TimedOut(s, now, 0).list, now);
  }

  /** k time-outs at one moment. */
  function TimedOutTimes(s: State, now: int, k: nat): State
    decreases k
  {
    if k == 0 then s else TimedOutTimes(TimedOut(s, now, 0), now, k - 1)
  }

  lemma {:induction false} NoneOld(list: seq<Query>, now: int)
    requires Old(list, now) == 0
    ensures Live(list, now) == list
  {
    if list != [] {
      NoneOld(list[1..], now);
    }
  }

  /** Enough time-outs in a row leave exactly the unexpired queries: one more than the binary
      logarithm of the number of expired ones. */
  lemma {:induction false} TimeoutsClear(s: State, now: int, k: nat)
    requires Old(s.list, now) < Pow2(k)
    ensures TimedOutTimes(s, now, k).list == Live(s.list, now)
    decreases k
  {
    TimeoutHalves(s, now);
    if k == 0 {
      NoneOld(s.list, now);
    } else {
      TimeoutsClear(TimedOut(s, now, 0), now, k - 1);
    }
  }

  /** One call is not enough: of two expired queries in a row it removes one. */
  lemma SecondSurvives(a: Query, b: Query, now: int, free: seq<int>)
    requires Expired(a, now) && Expired(b, now)
    ensures TimedOut(State([a, b], free), now, 0).list == [b]
  {
  }

  // ---------- Runs ----------

  /** What the rest of dnrd asks for. An add carries what happens if the client id is new: whether
      memory and a socket are to be had, and the cell the random number picks. */
  datatype Op = Add(clientQid: int, now: int, ttl: int, able: bool, cell: nat) | Delete(k: nat) | Timeout(now: int)

  predicate Possible(s: State, op: Op) {
    match op
    case Add(_, _, _, _, cell) => s.free != [] ==> cell < |s.free|
    case Delete(k) => k < |s.list|
    case Timeout(_) => true
  }

  /** maxSockets limits the queries in flight. */
  function Apply(s: State, op: Op, maxSockets: nat): State
    requires Possible(s, op) && |s.free| + |s.list| == PoolSize && maxSockets <= PoolSize
  {
    match op
    case Add(clientQid, now, ttl, able, cell) =>
      var k := FindClient(s.list, clientQid, 0);
      if k < |s.list| then Repeated(s, k, now)
      else if |s.list| >= maxSockets || !able then s
      else Entered(s, clientQid, now, ttl, cell)
    case Delete(k) => Removed(s, k)
    case Timeout(now) => TimedOut(s, now, 0)
  }

  ghost predicate Run(ss: seq<State>, ops: seq<Op>, maxSockets: nat) {
    && |ss| == |ops| + 1 && maxSockets <= PoolSize && ss[0] == State([], seq(PoolSize, i => i))
    && forall k {:trigger ops[k]} :: 0 <= k < |ops| ==>
         Possible(ss[k], ops[k]) && |ss[k].free| + |ss[k].list| == PoolSize
           && ss[k + 1] == Apply(ss[k], ops[k], maxSockets)
  }

  lemma {:induction false} FullOnce(n: nat, id: int)
    ensures multiset(seq(n, i => i))[id] == if 0 <= id < n then 1 else 0
  {
    if n > 0 {
      FullOnce(n - 1, id);
      assert seq(n, i => i) == seq(n - 1, i => i) + [n - 1];
    }
  }

  lemma InitialInv()
    ensures Inv(State([], seq(PoolSize, i => i)))
  {
    var s := State([], seq(PoolSize, i => i));
    assert Ids(s.list) == [];
    forall id
      ensures Uses(s, id) == if 0 <= id < PoolSize then 1 else 0
    {
      FullOnce(PoolSize, id);
    }
  }

  lemma {:induction false} TimedOutShrinks(s: State, now: int, i: nat)
    requires i <= |s.list|
    ensures |TimedOut(s, now, i).list| <= |s.list|
    decreases |s.list|, |s.list| - i
  {
    if i < |s.list| {
      if Expired(s.list[i], now) {
        TimedOutShrinks(Removed(s, i), now, if i < |s.list| - 1 then i + 1 else 0);
      } else {
        TimedOutShrinks(s, now, i + 1);
      }
    }
  }

  lemma ApplyInv(s: State, op: Op, maxSockets: nat)
    requires Inv(s) && Possible(s, op) && |s.list| <= maxSockets <= PoolSize
    ensures Inv(Apply(s, op, maxSockets)) && |Apply(s, op, maxSockets).list| <= maxSockets
  {
    match op
    case Add(clientQid, now, ttl, able, cell) =>
      var k := FindClient(s.list, clientQid, 0);
      if k < |s.list| {
        RepeatedInv(s, k, now);
      } else if |s.list| < maxSockets && able {
        EnteredInv(s, clientQid, now, ttl, cell);
      }
    case Delete(k) =>
      RemovedInv(s, k);
    case Timeout(now) =>
      TimedOutInv(s, now, 0);
      TimedOutShrinks(s, now, 0);
  }

  /** In every state of every run each id is free once or in flight once, no client id is in the
      list twice, and the limit holds. */
  lemma {:induction false} RunInv(ss: seq<State>, ops: seq<Op>, maxSockets: nat, k: nat)
    requires Run(ss, ops, maxSockets) && k < |ss|
    ensures Inv(ss[k]) && |ss[k].list| <= maxSockets
  {
    if k == 0 {
      InitialInv();
    } else {
      RunInv(ss, ops, maxSockets, k - 1);
      assert ops[k - 1] == ops[k - 1];
      ApplyInv(ss[k - 1], ops[k - 1], maxSockets);
    }
  }
}
