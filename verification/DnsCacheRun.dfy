/**
  Runs of cache operations: lookups, transactions that are committed or aborted, records of hosts
  files and growth of the table, in any order.
*/
module DnsCacheRun {
  import opened Common
  import opened DnsCache
  import opened DnsCacheWalk
  import opened DnsCacheSearch
  import opened DnsCacheScan
  import opened DnsCacheAddr
  import opened DnsCacheOps

  datatype Op =
    | Find(name: string, time: int, prot: set<Flag>)
    | FindAddr(question: Question)
    | Start
    | Put(owner: Option<string>, addr: Option<seq<int>>, at: int, ttl: nat, flags: set<Flag>, longNameFits: bool)
    | End
    | Reset(alias: Id)
    | Point(alias: Id, target: Id)
    | Give(id: Id, r: Rec)
    | Grow(size: nat, memory: bool)

  /** What the callers of cache_insert see to. */
  predicate WellFormed(op: Op) {
    op.Put? ==>
      && Meets(op.flags, {Forward, Reverse}) && Hosts !in op.flags && Dhcp !in op.flags
      && (Forward in op.flags ==> op.owner.Some?)
  }

  // ---------- What holds in every state ----------

  /** The list and the uncommitted chain share out the pool, used records precede free ones, and no
      uncommitted record is in a hash chain. */
  ghost predicate Sound(s: State) {
    && NoDup(s.lru) && NoDup(s.pending) && (forall id :: id in s.lru ==> id !in s.pending)
    && (forall id :: id in s.pool <==> id in s.lru || id in s.pending)
    && UsedFirst(s.rec, s.lru)
    && (forall id, b :: id in s.pending && 0 <= b < |s.table| ==> id !in s.table[b])
  }

  lemma InvSound(s: State)
    requires Inv(s)
    ensures Sound(s)
  {
    InvMeans(s);
    forall id, b | id in s.pending && 0 <= b < |s.table|
      ensures id !in s.table[b]
    {
      NotHashed(s, id);
    }
  }

  // ---------- Operations ----------

  /** The cache between two operations; failed: an insert has failed since the last start. */
  datatype Snap = Snap(s: State, failed: bool)

  ghost function Shot(cache: Cache): Snap
    reads cache
  {
    Snap(cache.S(), cache.insertError)
  }

  /** What an operation does with the pool, the uncommitted records and the mark of a failure. */
  ghost predicate Steps(x: Snap, op: Op, y: Snap) {
    && y.s.pool == x.s.pool
    && match op
       case Start =>
         && !y.failed && y.s.pending == []
         && forall id :: id in x.s.pending ==> id in y.s.lru && id in y.s.rec && !InUse(y.s.rec[id])
       case End =>
         && y.failed == x.failed
         && (x.failed ==> y == x)
         && (!x.failed ==> y.s.pending == [] && Inv(x.s) && y.s == CommitAll(x.s))
       case Put(_, _, _, _, _, _) =>
         && (x.failed ==> y == x)
         && (y.failed ==> y.s.pending == x.s.pending)
         && (!y.failed ==> PutTook(x, y))
       case _ => y.failed == x.failed && y.s.pending == x.s.pending
  }

  /** An insert that succeeds takes a record of the list. */
  ghost predicate PutTook(x: Snap, y: Snap) {
    y.s.pending != [] && y.s.pending[1..] == x.s.pending
  }

  /** trace is a run of the operations. */
  ghost predicate IsRun(trace: seq<Snap>, ops: seq<Op>) {
    && |trace| == |ops| + 1
    && forall k {:trigger ops[k]} :: 0 <= k < |ops| ==> Steps(trace[k], ops[k], trace[k + 1])
  }

  ghost predicate AllValid(trace: seq<Snap>) {
    forall k :: 0 <= k < |trace| ==> Inv(trace[k].s)
  }

  /** One operation; what its callers would not ask for is left out. */
  method Do(cache: Cache, op: Op)
    requires cache.Valid() && WellFormed(op)
    modifies cache
    ensures cache.Valid() && Steps(old(Shot(cache)), op, Shot(cache))
  {
    match op
    case Find(name, now, prot) =>
      var _ := cache.Lookup(name, now, prot);
    case FindAddr(q) =>
      var _ := cache.LookupAddr(q);
    case Start =>
      cache.StartInsert();
      StartRecovers(old(cache.S()), cache.S());
    case Put(_, _, _, _, _, _) =>
      Insert(cache, op);
    case End =>
      cache.EndInsert();
    case Reset(alias) =>
      if alias in cache.pending && alias in cache.rec {
        cache.ClearTarget(alias);
      }
    case Point(alias, target) =>
      if alias in cache.pending && alias in cache.rec && target in cache.pool && target in cache.rec {
        cache.SetTarget(alias, target);
      }
    case Give(id, r) =>
      if id !in cache.rec && Given(r) && (r.target.Some? && r.target.value in cache.pool ==> r.targetUid < cache.uid) {
        cache.AddGiven(id, r);
      }
    case Grow(size, memory) =>
      cache.Rehash(size, memory);
  }

  method Insert(cache: Cache, op: Op)
    requires cache.Valid() && WellFormed(op) && op.Put?
    modifies cache
    ensures cache.Valid() && Steps(old(Shot(cache)), op, Shot(cache))
  {
    ghost var why, mid, before;
    var r;
    r, why, mid, before := cache.Insert(op.owner, op.addr, op.at, op.ttl, op.flags, op.longNameFits);
    assert mid.pending == old(cache.pending);
  }

  lemma StartRecovers(s: State, s': State)
    requires Inv(s) && s'.lru == s.lru + s.pending
    ensures forall id :: id in s.pending ==> id in s'.lru
  {
  }

  // ---------- Runs ----------

  /** Any sequence of operations, on any valid cache, is a run. In each of its states the pool, which
      never changes, is shared out between list and uncommitted chain, used records precede free
      ones and no uncommitted record hangs in a chain; and a transaction is
      committed as a whole or leaves nothing behind. */
  method Run(cache: Cache, ops: seq<Op>) returns (ghost trace: seq<Snap>)
    requires cache.Valid() && forall k :: 0 <= k < |ops| ==> WellFormed(ops[k])
    modifies cache
    ensures cache.Valid() && IsRun(trace, ops) && trace[0] == old(Shot(cache)) && trace[|ops|] == Shot(cache)
    ensures forall k :: 0 <= k < |trace| ==> Sound(trace[k].s) && trace[k].s.pool == old(cache.S()).pool
    ensures forall i, j, id :: Uncommitted(trace, ops, i, j, id) ==> NeverFound(trace, i, j, id)
    ensures forall i, f, j, m: nat :: FailedTransaction(trace, ops, i, f, j) && Takes(trace, ops, i, j, m) ==>
              NeverFound(trace, m + 1, j, trace[m + 1].s.pending[0])
    ensures forall e: nat, id :: Commits(trace, ops, e, id) ==> Entry(trace[e + 1].s.table, id)
  {
    trace := [Shot(cache)];
    for i := 0 to |ops|
      invariant cache.Valid() && IsRun(trace, ops[..i]) && trace[0] == old(Shot(cache)) && trace[i] == Shot(cache)
      invariant AllValid(trace) && forall k :: 0 <= k < |trace| ==> trace[k].s.pool == old(cache.S()).pool
    {
      Do(cache, ops[i]);
      RunOn(trace, ops[..i], ops[i], Shot(cache));
      trace := trace + [Shot(cache)];
      assert ops[..i + 1] == ops[..i] + [ops[i]];
    }
    assert ops[..|ops|] == ops;
    RunMeans(trace, ops);
  }

  lemma RunMeans(trace: seq<Snap>, ops: seq<Op>)
    requires IsRun(trace, ops) && AllValid(trace)
    ensures forall k :: 0 <= k < |trace| ==> Sound(trace[k].s)
    ensures forall i, j, id :: Uncommitted(trace, ops, i, j, id) ==> NeverFound(trace, i, j, id)
    ensures forall i, f, j, m: nat :: FailedTransaction(trace, ops, i, f, j) && Takes(trace, ops, i, j, m) ==>
              NeverFound(trace, m + 1, j, trace[m + 1].s.pending[0])
    ensures forall e: nat, id :: Commits(trace, ops, e, id) ==> Entry(trace[e + 1].s.table, id)
  {
    forall k | 0 <= k < |trace|
      ensures Sound(trace[k].s)
    {
      InvSound(trace[k].s);
    }
    forall i, j, id | Uncommitted(trace, ops, i, j, id)
      ensures NeverFound(trace, i, j, id)
    {
      AbortedNeverFound(trace, ops, i, j, id);
    }
    forall i, f, j, m: nat | FailedTransaction(trace, ops, i, f, j) && Takes(trace, ops, i, j, m)
      ensures NeverFound(trace, m + 1, j, trace[m + 1].s.pending[0])
    {
      FailedLeavesNothing(trace, ops, i, f, j, m);
    }
    forall e: nat, id | Commits(trace, ops, e, id)
      ensures Entry(trace[e + 1].s.table, id)
    {
      assert Steps(trace[e], ops[e], trace[e + 1]);
      CommitHashes(trace[e].s, id);
    }
  }

  lemma RunOn(trace: seq<Snap>, ops: seq<Op>, op: Op, x: Snap)
    requires IsRun(trace, ops) && Steps(trace[|ops|], op, x)
    ensures IsRun(trace + [x], ops + [op])
  {
    var trace', ops' := trace + [x], ops + [op];
    forall k | 0 <= k < |ops'|
      ensures Steps(trace'[k], ops'[k], trace'[k + 1])
    {
      assert trace'[k] == trace[k];
      if k < |ops| {
        assert ops'[k] == ops[k] && trace'[k + 1] == trace[k + 1];
      }
    }
  }

  /** Operation e ends a transaction without failures to which record id, no alias, belongs. */
  ghost predicate Commits(trace: seq<Snap>, ops: seq<Op>, e: nat, id: Id) {
    && e < |ops| && e + 1 < |trace| && ops[e].End? && !trace[e].failed
    && var s := trace[e].s;
       id in s.pending && id in s.rec && Cname !in s.rec[id].flags
  }

  // ---------- Aborted inserts ----------

  /** Record id waits for a commit in state i, and none comes before the start that is operation j:
      cache_end_insert is not called, or it is called after an insert has failed. */
  ghost predicate Uncommitted(trace: seq<Snap>, ops: seq<Op>, i: nat, j: nat, id: Id) {
    && i <= j < |ops| < |trace| && id in trace[i].s.pending && ops[j].Start?
    && forall m :: i <= m < j ==> !ops[m].Start? && (ops[m].End? ==> trace[m].failed)
  }

  /** The record is findable in no state from i on to the one after the start that is operation j,
      which has put it back into the list, out of use. */
  ghost predicate NeverFound(trace: seq<Snap>, i: nat, j: nat, id: Id) {
    && j + 1 < |trace|
    && (forall k :: i <= k <= j + 1 ==> Unfindable(trace[k].s, id))
    && var s := trace[j + 1].s;
       id in s.lru && id in s.rec && !InUse(s.rec[id])
  }

  lemma {:induction false} StaysPending(trace: seq<Snap>, ops: seq<Op>, i: nat, j: nat, id: Id, k: nat)
    requires IsRun(trace, ops) && Uncommitted(trace, ops, i, j, id) && i <= k <= j
    ensures id in trace[k].s.pending
    decreases k
  {
    if i < k {
      StaysPending(trace, ops, i, j, id, k - 1);
      assert Steps(trace[k - 1], ops[k - 1], trace[k]);
      TailIn(trace[k].s.pending, id);
    }
  }

  lemma TailIn(p: seq<Id>, id: Id)
    ensures p != [] && id in p[1..] ==> id in p
  {
  }

  /** No lookup would answer with the record. */
  ghost predicate Unfindable(s: State, id: Id) {
    forall b :: 0 <= b < |s.table| ==> id !in s.table[b]
  }

  lemma UnfindableMeans(s: State, id: Id, name: string, now: int, prot: set<Flag>, q: Question)
    requires Inv(s) && Unfindable(s, id) && AllWalkable(s)
    ensures id !in Answers(s, name, now, prot) && id !in AddrAnswers(s, q)
  {
    AnswersExact(s, name, now, prot);
    AddrAnswersExact(s, q);
  }

  lemma FreeIsUnfindable(s: State, id: Id)
    requires Inv(s) && id in s.lru && id in s.rec && !InUse(s.rec[id])
    ensures Unfindable(s, id)
  {
    InvMeans(s);
  }

  /** A record that is not committed is findable at no point, and the next start recovers it. */
  lemma AbortedNeverFound(trace: seq<Snap>, ops: seq<Op>, i: nat, j: nat, id: Id)
    requires IsRun(trace, ops) && AllValid(trace) && Uncommitted(trace, ops, i, j, id)
    ensures NeverFound(trace, i, j, id)
  {
    forall k | i <= k <= j
      ensures id in trace[k].s.pending && Unfindable(trace[k].s, id)
    {
      StaysPending(trace, ops, i, j, id, k);
      InvSound(trace[k].s);
    }
    assert Steps(trace[j], ops[j], trace[j + 1]);
    FreeIsUnfindable(trace[j + 1].s, id);
  }

  /** Operations i to j - 1 follow a start, operation j is the next one, and insert f of them fails
      before any cache_end_insert. */
  ghost predicate FailedTransaction(trace: seq<Snap>, ops: seq<Op>, i: nat, f: nat, j: nat) {
    && i <= f < j < |ops| < |trace| && ops[f].Put? && trace[f + 1].failed && ops[j].Start?
    && (forall m :: i <= m < j ==> !ops[m].Start?) && (forall m :: i <= m < f ==> !ops[m].End?)
  }

  /** Insert m of these operations takes a record. */
  ghost predicate Takes(trace: seq<Snap>, ops: seq<Op>, i: nat, j: nat, m: nat) {
    i <= m < j < |ops| < |trace| && ops[m].Put? && !trace[m + 1].failed && PutTook(trace[m], trace[m + 1])
  }

  /** Once an insert has failed, the mark stays until the next start. */
  lemma {:induction false} StaysFailed(trace: seq<Snap>, ops: seq<Op>, i: nat, f: nat, j: nat, k: nat)
    requires IsRun(trace, ops) && FailedTransaction(trace, ops, i, f, j) && f < k <= j
    ensures trace[k].failed
    decreases k
  {
    if f + 1 < k {
      StaysFailed(trace, ops, i, f, j, k - 1);
      assert Steps(trace[k - 1], ops[k - 1], trace[k]);
    }
  }

  /** Inserts are atomic: if one insert of a transaction fails, before or after others succeeded,
      no record of the transaction is ever findable, whether or not cache_end_insert is called, and
      the next start recovers them all. */
  lemma FailedLeavesNothing(trace: seq<Snap>, ops: seq<Op>, i: nat, f: nat, j: nat, m: nat)
    requires IsRun(trace, ops) && AllValid(trace)
    requires FailedTransaction(trace, ops, i, f, j) && Takes(trace, ops, i, j, m)
    ensures NeverFound(trace, m + 1, j, trace[m + 1].s.pending[0])
  {
    if f < m {
      StaysFailed(trace, ops, i, f, j, m + 1);
    }
    var id := trace[m + 1].s.pending[0];
    forall k | m + 1 <= k < j
      ensures !ops[k].Start? && (ops[k].End? ==> trace[k].failed)
    {
      if ops[k].End? {
        StaysFailed(trace, ops, i, f, j, k);
      }
    }
    assert Uncommitted(trace, ops, m + 1, j, id);
    AbortedNeverFound(trace, ops, m + 1, j, id);
  }
}
