/**
  The operations of cache.c on its static variables, proved against the walk functions.
*/
module DnsCacheOps {
  import opened Common
  import opened DnsCache
  import opened DnsCacheWalk
  import opened DnsCacheSearch
  import opened DnsCacheScan
  import opened DnsCacheAddr

  class Cache {
    const pool: set<Id>
    const hash: string -> nat
    const maxTtl: nat
    var rec: map<Id, Rec>
    var lru: seq<Id>
    var pending: seq<Id>
    var table: seq<seq<Id>>
    var uid: int
    var insertError: bool
    var next: map<Id, Option<Id>>   // the next field of the given records, which the list does not use

    ghost function S(): State
      reads this
    {
      State(pool, hash, rec, lru, pending, table, uid)
    }

    ghost predicate Valid()
      reads this
    {
      Inv(S())
    }

    /** cache_init: n free records, each linked in front of the ones before, and the table. */
    constructor (n: nat, hash: string -> nat, maxTtl: nat)
      ensures Valid() && pending == [] && !insertError && fresh(this)
      ensures pool == Ids(n) && |lru| == n
      ensures forall id :: id in pool ==> id in rec && !InUse(rec[id])
      ensures this.hash == hash && this.maxTtl == maxTtl && |table| == NewSize(n)
    {
      this.pool := Ids(n);
      this.hash, this.maxTtl := hash, maxTtl;
      pending, insertError, next := [], false, map[];
      var records: map<Id, Rec>, list: seq<Id> := map[], [];
      for i := 0 to n
        invariant records.Keys == Ids(i) && |list| == i
        invariant forall k :: 0 <= k < i ==> records[k] == Rec({}, "", [], 0, k, None, 0) && list[k] == i - 1 - k
      {
        list := [i] + list;
        records := records[i := Rec({}, "", [], 0, i, None, 0)];
      }
      rec, lru, uid := records, list, n;
      var size := 64;
      while size < n / 10
        invariant size > 0 && NewSizeFrom(n, size) == NewSize(n)
      {
        size := size * 2;
      }
      table := seq(size, _ => []);
      new;
      InitialInv(S(), n);
    }

    /** cache_unlink. */
    method Unlink(id: Id)
      requires id in lru
      modifies this`lru
      ensures lru == Without(old(lru), id)
    {
      lru := Without(lru, id);
    }

    /** cache_free. */
    method Free(id: Id)
      requires id in rec
      modifies this`rec, this`lru, this`uid
      ensures rec == old(rec)[id := Freed(old(rec[id]), old(uid))] && lru == old(lru) + [id] && uid == old(uid) + 1
    {
      rec := rec[id := rec[id].(flags := rec[id].flags - {Forward, Reverse, BigName}, uid := uid)];
      uid := uid + 1;
      lru := lru + [id];
    }

    /** cache_link. */
    method Link(id: Id)
      modifies this`lru
      ensures lru == [id] + old(lru)
    {
      lru := [id] + lru;
    }

    /** The step all walks share: entry i of chain b is unlinked and, if it is a pool record,
        freed. */
    method Drop(b: nat, i: nat)
      requires Valid() && b < |table| && i < |table[b]|
      modifies this`rec, this`lru, this`table, this`uid
      ensures Valid()
      ensures old(table[b][i]) in pool ==> old(table[b][i]) in old(lru) && old(table[b][i]) in old(rec)
      ensures S() == Dropped(old(S()), b, i)
    {
      ghost var s := S();
      InChain(s, b, i);
      DroppedInv(s, b, i);
      var id := table[b][i];
      table := table[b := RemoveAt(table[b], i)];
      if !Given(rec[id]) {
        Unlink(id);
        Free(id);
      }
    }

    // ---------- Lookup by name ----------

    /** The loop body of the search on entry up of chain b. */
    method Visit(b: nat, name: string, now: int, prot: set<Flag>, up: nat, insert: int, insFlags: set<Flag>)
      returns (linked: bool, up': nat, insert': int, insFlags': set<Flag>)
      requires Valid() && Visitable(S(), b, up) && insert <= up
      modifies this`rec, this`lru, this`table, this`uid
      ensures S() == Visited(old(S()), b, name, now, prot, up, insert, insFlags)
      ensures (up', insert', insFlags') == Cursor(old(S()), old(table[b][up]), name, now, prot, up, insert, insFlags)
      ensures linked <==> LinkedHit(old(S()), old(table[b][up]), name, now, prot)
    {
      up', insert', insFlags' := up, insert, insFlags;
      var c := table[b][up];
      linked := false;
      if !Expired(rec[c], now) && !Outdated(rec, rec[c]) {
        up' := up + 1;
        if Hit(rec[c], name, prot) {
          if Given(rec[c]) {
            linked := true;
          } else {
            Unlink(c);
            Link(c);
          }
          if insert >= 0 && OrderFlags(rec[c]) == insFlags {
            table := table[b := MoveUp(table[b], up, insert)];
            insert' := insert + 1;
          } else if insert < 0 {
            insert', insFlags' := up, OrderFlags(rec[c]);
          }
        }
      } else {
        Drop(b, up);
      }
    }

    /** *chainp = c, chainp = &c->next: a given hit joins the chain of answers. */
    method Chain(c: Id, first: Option<Id>, last: Option<Id>, ghost g: seq<Id>)
      returns (first': Option<Id>, last': Option<Id>)
      requires NextChain(next, g, first, last) && NoDup(g)
      modifies this`next
      ensures NextChain(next, g + [c], first', last')
    {
      NextAppend(next, g, first, last, c);
      first', last' := first, Some(c);
      if last.Some? {
        next := next[last.value := Some(c)];
      } else {
        first' := Some(c);
      }
    }

    /** *chainp = cache_head: the answers of the list follow the given ones. */
    method Close(first: Option<Id>, last: Option<Id>, ghost g: seq<Id>) returns (ans: Option<Id>)
      requires NextChain(next, g, first, last) && NoDup(g)
      modifies this`next
      ensures NextLinks(next, g, Head(lru), ans)
    {
      NextClose(next, g, first, last, Head(lru));
      ans := Head(lru);
      if last.Some? {
        next := next[last.value := Head(lru)];
        ans := first;
      }
    }

    /** One pass of the search loop. */
    method Pass(b: nat, name: string, now: int, prot: set<Flag>, first: Option<Id>, last: Option<Id>,
                up: nat, insert: int, insFlags: set<Flag>, ghost s0: State, ghost j: nat)
      returns (first': Option<Id>, last': Option<Id>, up': nat, insert': int, insFlags': set<Flag>)
      requires Valid() && Inv(s0) && Walkable(s0, b) && j < |s0.table[b]| && Walking(s0, S(), b, name, now, prot, j)
      requires CursorAt(s0.rec, OrderUpTo(s0, b, name, now, prot, j), up, insert, insFlags)
      requires NextChain(next, HitsUpTo(s0, b, name, now, prot, false, j), first, last)
      modifies this`rec, this`lru, this`table, this`uid, this`next
      ensures Valid() && Walking(s0, S(), b, name, now, prot, j + 1)
      ensures CursorAt(s0.rec, OrderUpTo(s0, b, name, now, prot, j + 1), up', insert', insFlags')
      ensures NextChain(next, HitsUpTo(s0, b, name, now, prot, false, j + 1), first', last')
      ensures b < |table| && (up' < |table[b]| <==> j + 1 < |s0.table[b]|)
    {
      PassOk(s0, S(), b, name, now, prot, j, up, insert, insFlags);
      HitsNoDup(s0, b, name, now, prot, false, j);
      ghost var g := HitsUpTo(s0, b, name, now, prot, false, j);
      var c := table[b][up];
      var linked;
      linked, up', insert', insFlags' := Visit(b, name, now, prot, up, insert, insFlags);
      first', last' := first, last;
      if linked {
        first', last' := Chain(c, first, last, g);
      }
    }

    /** The first search of cache_find_by_name: one walk along the chain of the name. Expired
        and outdated entries go, hits of the list become its youngest, given hits are linked
        through their next fields, and the hits are rotated. */
    method Search(name: string, now: int, prot: set<Flag>) returns (ans: Option<Id>)
      requires Valid()
      modifies this`rec, this`lru, this`table, this`uid, this`next
      ensures Valid() && Primed(old(S()), S(), next, name, now, prot, ans)
    {
      var b := BucketOf(hash, |table|, name);
      ghost var s0, j := S(), 0;
      assert b == NameBucket(s0, name);
      var up, insert, insFlags := 0, -1, {};
      var first: Option<Id>, last: Option<Id> := None, None;
      WalkingStart(s0, b, name, now, prot);
      while up < |table[b]|
        invariant Valid() && 0 <= j <= |s0.table[b]| && b < |table|
        invariant up < |table[b]| <==> j < |s0.table[b]|
        invariant Walking(s0, S(), b, name, now, prot, j)
        invariant CursorAt(s0.rec, OrderUpTo(s0, b, name, now, prot, j), up, insert, insFlags)
        invariant NextChain(next, HitsUpTo(s0, b, name, now, prot, false, j), first, last)
        decreases |s0.table[b]| - j
      {
        first, last, up, insert, insFlags := Pass(b, name, now, prot, first, last, up, insert, insFlags, s0, j);
        j := j + 1;
      }
      HitsNoDup(s0, b, name, now, prot, false, j);
      ans := Close(first, last, HitsUpTo(s0, b, name, now, prot, false, j));
    }

    /** cache_find_by_name with no record to continue from. */
    method FindFirst(name: string, now: int, prot: set<Flag>) returns (ans: Option<Id>)
      requires Valid()
      modifies this`rec, this`lru, this`table, this`uid, this`next
      ensures Valid() && Walked(old(S()), S(), name, now, prot)
      ensures ans == At(Answers(old(S()), name, now, prot), 0)
      ensures Continues(S(), next, name, prot, Answers(old(S()), name, now, prot))
    {
      ans := Search(name, now, prot);
      IterationAll(old(S()), S(), next, name, now, prot, ans);
      ans := Checked(rec, ans, name, prot);
    }

    /** cache_find_by_name continued from a record. */
    method FindNext(from: Id, name: string, prot: set<Flag>) returns (ans: Option<Id>)
      ensures ans == Checked(rec, NextOf(lru, next, from), name, prot)
    {
      ans := NextOf(lru, next, from);
      ans := Checked(rec, ans, name, prot);
    }

    /** The calls of a caller that wants the answers after the first. */
    method Drain(first: Option<Id>, name: string, prot: set<Flag>, ghost a: seq<Id>) returns (answers: seq<Id>)
      requires first == At(a, 0) && Continues(S(), next, name, prot, a)
      ensures answers == a
    {
      var ans := first;
      answers := [];
      while ans.Some?
        invariant |answers| <= |a| && answers == a[..|answers|]
        invariant ans == At(a, |answers|)
        decreases |a| - |answers|
      {
        ghost var k := |answers|;
        assert ContinuesAt(S(), next, name, prot, a, k) && a[..k + 1] == a[..k] + [a[k]];
        answers := answers + [ans.value];
        ans := FindNext(ans.value, name, prot);
      }
    }

    /** All answers to a question: the live records of the name, each once. */
    method Lookup(name: string, now: int, prot: set<Flag>) returns (answers: seq<Id>)
      requires Valid()
      modifies this`rec, this`lru, this`table, this`uid, this`next
      ensures Valid() && Walked(old(S()), S(), name, now, prot)
      ensures answers == Answers(old(S()), name, now, prot)
    {
      var ans := FindFirst(name, now, prot);
      answers := Drain(ans, name, prot, Answers(old(S()), name, now, prot));
    }

    // ---------- Lookup by address ----------

    /** The inner loop body of the search on entry up of chain i, a reverse one. */
    method AddrVisit(i: nat, q: Question, up: nat) returns (linked: bool, up': nat)
      requires Valid() && Visitable(S(), i, up) && Reverse in rec[table[i][up]].flags
      modifies this`rec, this`lru, this`table, this`uid
      ensures S() == AddrVisited(old(S()), i, q, up)
      ensures up' == up + if Expired(old(rec[table[i][up]]), q.now) then 0 else 1
      ensures var r := old(rec[table[i][up]]);
              (linked <==> !Expired(r, q.now) && AddrHit(r, q) && Given(r))
    {
      var c := table[i][up];
      linked, up' := false, up;
      if !Expired(rec[c], q.now) {
        if Meets(rec[c].flags, q.prot) && SameAddr(rec[c].addr, q.addr, q.prot == {Ipv6}) {
          if Given(rec[c]) {
            linked := true;
          } else {
            Unlink(c);
            Link(c);
          }
        }
        up' := up + 1;
      } else {
        Drop(i, up);
      }
    }

    /** One pass of that loop. */
    method AddrPass(i: nat, q: Question, up: nat, first: Option<Id>, last: Option<Id>, ghost s0: State, ghost j: nat)
      returns (up': nat, first': Option<Id>, last': Option<Id>)
      requires Valid() && Inv(s0) && AllWalkable(s0) && i < |s0.table| && j < |s0.table[i]|
        && AddrWalking(s0, S(), q, i, j)
      requires up == Cut(s0, ForAddress(q.now), i, j) && s0.table[i][j] in s0.rec
        && Reverse in s0.rec[s0.table[i][j]].flags
      requires NextChain(next, HitsAt(s0, q, false, i, j), first, last)
      modifies this`rec, this`lru, this`table, this`uid, this`next
      ensures Valid() && AddrWalking(s0, S(), q, i, j + 1) && up' == Cut(s0, ForAddress(q.now), i, j + 1)
      ensures NextChain(next, HitsAt(s0, q, false, i, j + 1), first', last')
    {
      AddrPassOk(s0, S(), q, i, j);
      HitsAtNext(s0, q, false, i, j);
      HitsAtFresh(s0, q, false, i, j);
      ghost var g := HitsAt(s0, q, false, i, j);
      var c := table[i][up];
      var linked;
      linked, up' := AddrVisit(i, q, up);
      first', last' := first, last;
      if linked {
        first', last' := Chain(c, first, last, g);
      }
    }

    predicate IsReverse(i: nat, up: nat)
      requires i < |table| && up < |table[i]|
      reads this
    {
      table[i][up] in rec && Reverse in rec[table[i][up]].flags
    }

    /** The inner loop: chain i up to its first entry that is not reverse. */
    method AddrSearchChain(i: nat, q: Question, first: Option<Id>, last: Option<Id>, ghost s0: State)
      returns (first': Option<Id>, last': Option<Id>)
      requires Valid() && Inv(s0) && ChainsOk(s0) && AllWalkable(s0) && i < |s0.table|
      requires Pruned(s0, S(), ForAddress(q.now), i, 0) && Youngest(lru, InChains(s0, q, true, i))
      requires NextChain(next, InChains(s0, q, false, i), first, last)
      modifies this`rec, this`lru, this`table, this`uid, this`next
      ensures Valid() && Pruned(s0, S(), ForAddress(q.now), i + 1, 0) && Youngest(lru, InChains(s0, q, true, i + 1))
      ensures NextChain(next, InChains(s0, q, false, i + 1), first', last')
    {
      ghost var t, j := ForAddress(q.now), 0;
      var up := 0;
      assert Walkable(s0, i) && s0.table[i][..0] == [];
      assert HitsAt(s0, q, true, i, 0) == InChains(s0, q, true, i);
      assert HitsAt(s0, q, false, i, 0) == InChains(s0, q, false, i);
      AddrEnd(s0, S(), q, i, j);
      first', last' := first, last;
      while up < |table[i]| && IsReverse(i, up)
        invariant Valid() && i < |table| && 0 <= j <= |s0.table[i]| && AddrWalking(s0, S(), q, i, j)
        invariant up == Cut(s0, t, i, j) && (up < |table[i]| <==> j < |s0.table[i]|)
        invariant NextChain(next, HitsAt(s0, q, false, i, j), first', last')
        decreases |s0.table[i]| - j
      {
        EntrySame(s0, S(), t, i, j);
        up, first', last' := AddrPass(i, q, up, first', last', s0, j);
        j := j + 1;
        AddrEnd(s0, S(), q, i, j);
      }
      if j < |s0.table[i]| {
        EntrySame(s0, S(), t, i, j);
      }
      PruneNext(s0, S(), t, i, j);
      ChainDone(s0, q, true, i, j);
      ChainDone(s0, q, false, i, j);
    }

    /** cache_find_by_addr with no record to continue from. */
    method FindByAddr(q: Question) returns (ans: Option<Id>)
      requires Valid()
      modifies this`rec, this`lru, this`table, this`uid, this`next
      ensures Valid() && AllWalkable(old(S())) && AddrWalked(old(S()), S(), q)
      ensures ans == At(AddrAnswers(old(S()), q), 0)
      ensures AddrContinues(S(), next, q, AddrAnswers(old(S()), q))
    {
      ghost var s0, t := S(), ForAddress(q.now);
      PruneStart(s0, t);
      InvMeans(s0);
      var first: Option<Id>, last: Option<Id> := None, None;
      var i := 0;
      while i < |table|
        invariant Valid() && AllWalkable(s0) && ChainsOk(s0) && |table| == |s0.table| && 0 <= i <= |s0.table|
        invariant Pruned(s0, S(), t, i, 0) && Youngest(lru, InChains(s0, q, true, i))
        invariant NextChain(next, InChains(s0, q, false, i), first, last)
      {
        first, last := AddrSearchChain(i, q, first, last, s0);
        i := i + 1;
      }
      InChainsMembers(s0, q, false, i);
      ans := Close(first, last, InChains(s0, q, false, i));
      AddrIterationAll(s0, S(), next, q, ans);
      ans := AddrChecked(rec, ans, q);
    }

    /** cache_find_by_addr continued from a record. */
    method FindNextByAddr(from: Id, q: Question) returns (ans: Option<Id>)
      ensures ans == AddrChecked(rec, NextOf(lru, next, from), q)
    {
      ans := NextOf(lru, next, from);
      ans := AddrChecked(rec, ans, q);
    }

    /** All names of an address: the live reverse records, each once. */
    method LookupAddr(q: Question) returns (answers: seq<Id>)
      requires Valid()
      modifies this`rec, this`lru, this`table, this`uid, this`next
      ensures Valid() && AllWalkable(old(S())) && AddrWalked(old(S()), S(), q)
      ensures answers == AddrAnswers(old(S()), q)
    {
      var ans := FindByAddr(q);
      answers := DrainAddr(ans, q, AddrAnswers(old(S()), q));
    }

    method DrainAddr(first: Option<Id>, q: Question, ghost a: seq<Id>) returns (answers: seq<Id>)
      requires first == At(a, 0) && AddrContinues(S(), next, q, a)
      ensures answers == a
    {
      var ans := first;
      answers := [];
      while ans.Some?
        invariant |answers| <= |a| && answers == a[..|answers|] && ans == At(a, |answers|)
        decreases |a| - |answers|
      {
        ghost var k := |answers|;
        assert AddrContinuesAt(S(), next, q, a, k) && a[..k + 1] == a[..k] + [a[k]];
        answers := answers + [ans.value];
        ans := FindNextByAddr(ans.value, q);
      }
    }

    // ---------- Scans ----------

    /** The loop body of the scan of a name's chain: the entry goes, stays, or ends the scan. */
    method ScanStep(b: nat, now: int, p: Purge, up: nat, ghost s0: State, ghost j: nat)
      returns (blocked: bool, up': nat)
      requires Valid() && Inv(s0) && Walkable(s0, b) && j < |s0.table[b]|
      requires Scanning(s0, S(), b, now, p, j) && up == |KeptUpTo(s0, b, now, p, j)|
      modifies this`rec, this`lru, this`table, this`uid
      ensures Valid() && (blocked <==> Blocked(s0, b, now, p, j))
      ensures blocked ==> Scanning(s0, S(), b, now, p, j)
      ensures !blocked ==> Scanning(s0, S(), b, now, p, j + 1) && up' == |KeptUpTo(s0, b, now, p, j + 1)|
    {
      ScanAt(s0, S(), b, now, p, j);
      var c := table[b][up];
      up', blocked := up, false;
      if Expired(rec[c], now) || Outdated(rec, rec[c]) || (Clashes(rec[c], p) && !Given(rec[c])) {
        ScanDrop(s0, S(), b, now, p, j);
        Drop(b, up);
      } else if Clashes(rec[c], p) {
        blocked := true;
      } else {
        ScanKeep(s0, S(), b, now, p, j);
        up' := up + 1;
      }
    }

    /** cache_scan_free with F_FORWARD. */
    method ScanName(name: string, now: int, flags: set<Flag>) returns (ok: bool)
      requires Valid()
      modifies this`rec, this`lru, this`table, this`uid
      ensures Valid()
      ensures Scanned(old(S()), S(), NameBucket(old(S()), name), now, ByName(name, flags), ok)
    {
      var b := BucketOf(hash, |table|, name);
      ghost var s0, j := S(), 0;
      assert b == NameBucket(s0, name);
      var p, up := ByName(name, flags), 0;
      ScanStart(s0, b, now, p);
      while up < |table[b]|
        invariant Valid() && 0 <= j <= |s0.table[b]| && b < |table|
        invariant Scanning(s0, S(), b, now, p, j) && up == |KeptUpTo(s0, b, now, p, j)|
        invariant forall i :: 0 <= i < j ==> !Blocked(s0, b, now, p, i)
        decreases |s0.table[b]| - j
      {
        ScanEnd(s0, S(), b, now, p, j);
        var blocked;
        blocked, up := ScanStep(b, now, p, up, s0, j);
        if blocked {
          return false;
        }
        j := j + 1;
      }
      ScanEnd(s0, S(), b, now, p, j);
      return true;
    }

    /** The inner loop of the scan over all chains. */
    method ScanChain(i: nat, t: Scan, ghost s0: State)
      requires t.Garbage? && Valid() && ChainsOk(s0) && AllWalkable(s0) && i < |s0.table| && Pruned(s0, S(), t, i, 0)
      modifies this`rec, this`lru, this`table, this`uid
      ensures Valid() && Pruned(s0, S(), t, i + 1, 0)
    {
      ghost var j := 0;
      var up := 0;
      assert Walkable(s0, i) && s0.table[i][..0] == [];
      if 0 < |s0.table[i]| {
        PruneAt(s0, S(), t, i, 0);
      }
      while up < |table[i]| && !Stops(rec[table[i][up]], t)
        invariant Valid() && i < |table| && 0 <= j <= |s0.table[i]| && Pruned(s0, S(), t, i, j)
        invariant up == Cut(s0, t, i, j) && (up < |table[i]| <==> j < |s0.table[i]|)
        invariant up < |table[i]| ==>
          table[i][up] in rec && table[i][up] == s0.table[i][j] && rec[table[i][up]] == s0.rec[s0.table[i][j]]
        decreases |s0.table[i]| - j
      {
        PruneAt(s0, S(), t, i, j);
        if Removes(rec[table[i][up]], t) {
          PruneDrop(s0, S(), t, i, j);
          Drop(i, up);
        } else {
          PruneKeep(s0, S(), t, i, j);
          up := up + 1;
        }
        j := j + 1;
        if j < |s0.table[i]| {
          PruneAt(s0, S(), t, i, j);
        }
      }
      PruneNext(s0, S(), t, i, j);
    }

    /** cache_scan_free without F_FORWARD. */
    method ScanAll(addr: seq<int>, flags: set<Flag>, now: int)
      requires Valid()
      modifies this`rec, this`lru, this`table, this`uid
      ensures Valid() && AllWalkable(old(S()))
      ensures Pruned(old(S()), S(), Garbage(addr, flags, now), |old(table)|, 0)
    {
      ghost var s0 := S();
      var t := Garbage(addr, flags, now);
      PruneStart(s0, t);
      InvMeans(s0);
      var i := 0;
      while i < |table|
        invariant Valid() && AllWalkable(s0) && ChainsOk(s0) && |table| == |s0.table| && 0 <= i <= |s0.table|
        invariant Pruned(s0, S(), t, i, 0)
      {
        ScanChain(i, t, s0);
        i := i + 1;
      }
    }

    /** cache_scan_free. */
    method ScanFree(name: Option<string>, addr: Option<seq<int>>, now: int, flags: set<Flag>) returns (ok: bool)
      requires Valid() && (Forward in flags ==> name.Some?)
      modifies this`rec, this`lru, this`table, this`uid
      ensures Valid() && Unchanged(old(S()), S()) && AllWalkable(old(S()))
      ensures Forward in flags ==>
                Scanned(old(S()), S(), NameBucket(old(S()), name.value), now, ByName(name.value, flags), ok)
      ensures Forward !in flags ==>
                ok && Pruned(old(S()), S(), Garbage(if addr.Some? then addr.value else [], flags, now), |old(table)|, 0)
    {
      InvAllWalkable(S());
      if Forward in flags {
        ok := ScanName(name.value, now, flags);
        ScannedUnchanged(old(S()), S(), NameBucket(old(S()), name.value), now, ByName(name.value, flags), ok);
      } else {
        ScanAll(if addr.Some? then addr.value else [], flags, now);
        ok := true;
      }
    }

    // ---------- Transactions ----------

    /** cache_start_insert: what an aborted insert left behind goes back to the list. */
    method StartInsert()
      requires Valid()
      modifies this`rec, this`lru, this`pending, this`uid, this`insertError
      ensures Valid() && pending == [] && !insertError
      ensures lru == old(lru) + old(pending) && table == old(table)
      ensures forall id :: id in old(pending) ==> id in rec && !InUse(rec[id])
    {
      ghost var s0, n := S(), 0;
      assert s0.pending[..0] == [] && s0.pending[0..] == s0.pending;
      while pending != []
        invariant Valid() && 0 <= n <= |s0.pending| && pending == s0.pending[n..] && table == s0.table
        invariant lru == s0.lru + s0.pending[..n]
        invariant forall i :: 0 <= i < n ==> s0.pending[i] in rec && !InUse(rec[s0.pending[i]])
        decreases |pending|
      {
        PendingKnown(S());
        RecoveredInv(S());
        var id := pending[0];
        pending := pending[1..];
        Free(id);
        n := n + 1;
        assert s0.pending[..n] == s0.pending[..n - 1] + [id];
      }
      insertError := false;
      assert s0.pending[..n] == s0.pending;
    }

    /** cache_hash: past the reverse entries unless the record is one, and past the mortal ones
        if it is immortal. */
    method HashRecord(id: Id)
      requires ChainsOk(S()) && id in rec
      modifies this`table
      ensures forall b, i :: 0 <= b < |old(table)| && 0 <= i < |old(table)[b]| ==> old(table)[b][i] in rec
      ensures S() == HashedIn(old(S()), id)
    {
      ChainsHaveRecords(S());
      var b := BucketOf(hash, |table|, rec[id].name);
      var chain := table[b];
      assert ChainOk(rec, chain, b, hash, |table|);
      var k := 0;
      if Reverse !in rec[id].flags {
        while k < |chain| && Reverse in rec[chain[k]].flags
          invariant 0 <= k <= |chain| && forall i :: 0 <= i < k ==> Rank(rec[chain[i]]) == 0
        {
          k := k + 1;
        }
        if Immortal in rec[id].flags {
          while k < |chain| && Immortal !in rec[chain[k]].flags
            invariant 0 <= k <= |chain| && forall i :: 0 <= i < k ==> Rank(rec[chain[i]]) < 2
            invariant k < |chain| ==> Rank(rec[chain[k]]) > 0
          {
            assert k + 1 < |chain| ==> Rank(rec[chain[k]]) <= Rank(rec[chain[k + 1]]);
            k := k + 1;
          }
        }
      }
      HashPosIs(rec, chain, rec[id], k);
      table := table[b := InsertAt(chain, k, id)];
    }

    /** cache_end_insert: after an error nothing is committed. */
    method EndInsert()
      requires Valid()
      modifies this`rec, this`lru, this`pending, this`table, this`uid
      ensures Valid()
      ensures S() == if insertError then old(S()) else CommitAll(old(S()))
    {
      if insertError {
        return;
      }
      while pending != []
        invariant Valid() && CommitAll(S()) == CommitAll(old(S()))
        decreases |pending|
      {
        PendingKnown(S());
        InvMeans(S());
        ChainsHaveRecords(S());
        ghost var s := S();
        var id := pending[0];
        if Outdated(rec, rec[id]) {
          pending := pending[1..];
          Free(id);
        } else {
          pending := pending[1..];
          HashRecord(id);
          Link(id);
        }
        assert S() == CommitOne(s);
      }
    }

    /** The loop of cache_insert that makes the record at the end of the list a free one. */
    method MakeRoom(now: int, flags: set<Flag>) returns (ghost why: Failure, ok: bool, ghost before: State)
      requires Valid()
      modifies this`rec, this`lru, this`table, this`uid
      ensures Valid() && Unchanged(old(S()), S())
      ensures ok ==> lru != [] && lru[|lru| - 1] in rec && !InUse(rec[lru[|lru| - 1]])
      ensures !ok ==> why == (if old(lru) == [] then NoRecord else EvictionHeld)
      ensures !ok && old(lru) != [] ==>
        Inv(before) && Unchanged(old(S()), before) && AllWalkable(before) && Stuck(before, now)
    {
      ghost var s0 := S();
      before := s0;
      InvAllWalkable(s0);
      why := if lru == [] then NoRecord else EvictionHeld;
      var freedAll, freeAvail := Reverse in flags, false;
      while true
        invariant Valid() && Unchanged(s0, S()) && Inv(before) && Unchanged(s0, before) && AllWalkable(before)
        invariant freeAvail ==>
          lru != [] && lru[|lru| - 1] in rec && (InUse(rec[lru[|lru| - 1]]) <==> Stuck(before, now))
        decreases if freeAvail then 0 else if freedAll then 1 else 2
      {
        if lru == [] {
          return why, false, before;
        }
        TailKnown(S());
        var id := lru[|lru| - 1];
        if !InUse(rec[id]) {
          return why, true, before;
        }
        if freeAvail {
          return why, false, before;
        }
        ghost var s := S();
        if freedAll {
          freeAvail := true;
          before := s;
          var done := ScanFree(Some(rec[id].name), Some(rec[id].addr), now, rec[id].flags);
          UnchangedTrans(s0, s, S());
          InvAllWalkable(s);
          EvictionExactly(s, S(), now, done);
        } else {
          var done := ScanFree(None, None, now, {});
          UnchangedTrans(s0, s, S());
          freedAll := true;
        }
      }
    }

    /** The part of cache_insert before the record is taken. */
    method Prepare(name: Option<string>, addr: Option<seq<int>>, now: int, flags: set<Flag>, longNameFits: bool)
      returns (ok: bool, ghost why: Failure, ghost before: State)
      requires Valid() && (Forward in flags ==> name.Some?)
      modifies this`rec, this`lru, this`table, this`uid
      ensures Valid() && Unchanged(old(S()), S())
      ensures ok ==> why == Inserted && lru != [] && lru[|lru| - 1] in rec && !InUse(rec[lru[|lru| - 1]])
      ensures !ok ==> Failed(old(S()), S(), before, why, name, now, flags, longNameFits)
    {
      before := S();
      ok := ScanFree(name, addr, now, flags);
      if !ok {
        return false, NameHeld, before;
      }
      ghost var mid := S();
      why, ok, before := MakeRoom(now, flags);
      UnchangedTrans(old(S()), mid, S());
      if !ok {
        return false, why, before;
      }
      if LongName(name) && !longNameFits {
        return false, NoLongName, before;
      }
      return true, Inserted, before;
    }

    /** cache_insert. The callers give a forward or reverse flag, a name with the former, and
        no flag of a given record; longNameFits says whether memory for a long name was found.
        Whatever happens, the entries left in the chains were there before, unchanged. */
    method Insert(name: Option<string>, addr: Option<seq<int>>, now: int, ttl: nat, flags: set<Flag>,
                  longNameFits: bool)
      returns (r: Option<Id>, ghost why: Failure, ghost mid: State, ghost before: State)
      requires Valid() && Meets(flags, {Forward, Reverse}) && Hosts !in flags && Dhcp !in flags
      requires Forward in flags ==> name.Some?
      modifies this`rec, this`lru, this`pending, this`table, this`uid, this`insertError
      ensures Valid() && Unchanged(old(S()), mid)
      ensures insertError <==> why != Inserted
      ensures old(insertError) ==> why == Earlier && S() == old(S())
      ensures !old(insertError) && why != Inserted ==>
        Failed(old(S()), mid, before, why, name, now, flags, longNameFits)
      ensures why != Inserted ==> r == None && S() == mid
      ensures why == Inserted ==>
                && mid.lru != [] && mid.lru[|mid.lru| - 1] in mid.rec && r == Some(mid.lru[|mid.lru| - 1])
                && S() == Taken(mid, Filled(mid.rec[r.value], name, addr, now + CappedTtl(ttl, maxTtl), flags))
    {
      if insertError {
        InvAllWalkable(S());
        return None, Earlier, S(), S();
      }
      var ok;
      ok, why, before := Prepare(name, addr, now, flags, longNameFits);
      mid := S();
      if !ok {
        insertError := true;
        return None, why, mid, before;
      }
      var id := Grab(name, addr, now + CappedTtl(ttl, maxTtl), flags);
      return Some(id), Inserted, mid, before;
    }

    /** The record at the end of the list, a free one, becomes the first pending record. */
    method Grab(name: Option<string>, addr: Option<seq<int>>, ttd: int, flags: set<Flag>) returns (id: Id)
      requires Valid() && Meets(flags, {Forward, Reverse}) && Hosts !in flags && Dhcp !in flags
      requires lru != [] && lru[|lru| - 1] in rec && !InUse(rec[lru[|lru| - 1]])
      modifies this`rec, this`lru, this`pending
      ensures Valid() && id == old(lru)[|old(lru)| - 1]
      ensures S() == Taken(old(S()), Filled(old(rec)[id], name, addr, ttd, flags))
    {
      TailKnown(S());
      id := lru[|lru| - 1];
      FilledOk(rec[id], name, addr, ttd, flags);
      TakenInv(S(), Filled(rec[id], name, addr, ttd, flags));
      lru := lru[..|lru| - 1];
      rec := rec[id := Filled(rec[id], name, addr, ttd, flags)];
      pending := [id] + pending;
    }

    /** What a caller does with an alias it has inserted: it points to the record inserted
        next. */
    method SetTarget(alias: Id, target: Id)
      requires Valid() && alias in pending && alias in rec && target in pool && target in rec
      modifies this`rec
      ensures Valid() && S() == Aimed(old(S()), alias, target)
    {
      AimedInv(S(), alias, target);
      rec := rec[alias := rec[alias].(target := Some(target), targetUid := rec[target].uid)];
    }

    /** What a caller does first: until it is pointed somewhere, an alias is outdated. */
    method ClearTarget(alias: Id)
      requires Valid() && alias in pending && alias in rec
      modifies this`rec
      ensures Valid() && S() == Unaimed(old(S()), alias)
      ensures Cname in rec[alias].flags ==> Outdated(rec, rec[alias])
    {
      UnaimedInv(S(), alias);
      rec := rec[alias := rec[alias].(target := None)];
    }

    /** A record of a hosts file or a lease enters the table. */
    method AddGiven(id: Id, r: Rec)
      requires Valid() && id !in rec && Given(r)
      requires r.target.Some? && r.target.value in pool ==> r.targetUid < uid
      modifies this`rec, this`table
      ensures Valid()
      ensures forall b, i :: 0 <= b < |old(table)| && 0 <= i < |old(table)[b]| ==> old(table)[b][i] in old(rec)
      ensures S() == GivenIn(old(S()), id, r)
    {
      GivenReady(S(), id, r);
      rec := rec[id := r];
      HashRecord(id);
    }

    // ---------- Growing the table ----------

    /** rehash of an existing table; memory says whether the new one could be allocated. */
    method Rehash(size: nat, memory: bool)
      requires Valid()
      modifies this`table
      ensures Valid()
      ensures |table| == if NewSize(size) <= |old(table)| || !memory then |old(table)| else NewSize(size)
      ensures SameEntries(old(table), table)
      ensures NewSize(size) <= |old(table)| || !memory ==> table == old(table)
    {
      var newSize := 64;
      while newSize < size / 10
        invariant newSize > 0 && NewSizeFrom(size, newSize) == NewSize(size)
      {
        newSize := newSize * 2;
      }
      if newSize <= |table| || !memory {
        return;
      }
      ghost var s0 := S();
      InvMeans(s0);
      var former := table;
      table := seq(newSize, _ => []);
      assert ChainsOk(S());
      var i := 0;
      while i < |former|
        invariant 0 <= i <= |former| && |table| == newSize && ChainsOk(S())
        invariant forall x {:trigger Entry(table, x)} :: Entry(table, x) <==> EntryBefore(former, i, 0, x)
      {
        var j := 0;
        while j < |former[i]|
          invariant 0 <= j <= |former[i]| && |table| == newSize && ChainsOk(S())
          invariant forall x {:trigger Entry(table, x)} :: Entry(table, x) <==> EntryBefore(former, i, j, x)
        {
          MoveOver(s0, S(), i, j);
          HashRecord(former[i][j]);
          j := j + 1;
        }
        NextChainOver(former, i);
        i := i + 1;
      }
      RehashedInv(s0, table);
    }
  }
}
