module DnsCacheScan {
  // The scans of the dnsmasq cache: over the chain of a name before an insert, and over all
  // chains for expired records or for an address. The scans over all chains stop early in each
  // chain; because chains are ordered they leave what a full scan would leave.

  import opened Common
  import opened DnsCache
  import opened DnsCacheWalk
  import opened DnsCacheSearch

  // ---------- The scan over one chain before an insert ----------

  /** A live clash with a record of a hosts file or a lease, which may not be removed. */
  ghost predicate Blocked(s: State, b: nat, now: int, p: Purge, i: nat)
    requires Walkable(s, b) && i < |s.table[b]|
  {
    var r := s.rec[s.table[b][i]];
    !Stale(s.rec, r, now, FreedUpTo(s, b, now, p, i)) && Clashes(r, p) && Given(r)
  }

  ghost predicate OpenScan(s: State, j: nat, u: nat) {
    true
  }

  /** The scan has passed the first j entries. */
  ghost predicate Scanning(s0: State, s: State, b: nat, now: int, p: Purge, j: nat)
    requires Walkable(s0, b) && j <= |s0.table[b]|
  {
    && |s.table| == |s0.table|
    && forall u: nat {:trigger OpenScan(s, j, u)} :: OpenScan(s, j, u) ==>
         WalkState(s0, s, b, j, (KeptUpTo(s0, b, now, p, j), []), FreedUpTo(s0, b, now, p, j), [])
  }

  lemma ScanningMeans(s0: State, s: State, b: nat, now: int, p: Purge, j: nat)
    requires Walkable(s0, b) && j <= |s0.table[b]| && Scanning(s0, s, b, now, p, j)
    ensures WalkState(s0, s, b, j, (KeptUpTo(s0, b, now, p, j), []), FreedUpTo(s0, b, now, p, j), [])
  {
    assert OpenScan(s, j, 0);
  }

  lemma ScanStart(s: State, b: nat, now: int, p: Purge)
    requires Walkable(s, b)
    ensures Scanning(s, s, b, now, p, 0)
  {
    assert ([] + []) + s.table[b][0..] == s.table[b];
  }

  /** The entry the scan is at. */
  lemma {:induction false} ScanAt(s0: State, s: State, b: nat, now: int, p: Purge, j: nat)
    requires Inv(s0) && Inv(s) && Walkable(s0, b) && j < |s0.table[b]| && Scanning(s0, s, b, now, p, j)
    ensures var (c, up) := (s0.table[b][j], |KeptUpTo(s0, b, now, p, j)|);
            && Visitable(s, b, up) && s.table[b][up] == c && s.rec[c] == s0.rec[c]
            && (Stale(s0.rec, s0.rec[c], now, FreedUpTo(s0, b, now, p, j)) <==> !Live(s, c, now))
  {
    ScanningMeans(s0, s, b, now, p, j);
    InvMeans(s0);
    var kept := KeptUpTo(s0, b, now, p, j);
    FreedMembers(s0, b, now, p, j, j);
    StaleTracks(s0, s.rec, s.uid, FreedUpTo(s0, b, now, p, j), s0.table[b][j], now);
    assert s.table[b][|kept|] == s0.table[b][j];
    InChain(s, b, |kept|);
  }

  lemma ScanDrop(s0: State, s: State, b: nat, now: int, p: Purge, j: nat)
    requires Walkable(s0, b) && j < |s0.table[b]| && Scanning(s0, s, b, now, p, j) && Goes(s0, b, now, p, j)
    requires Visitable(s, b, |KeptUpTo(s0, b, now, p, j)|)
    ensures Scanning(s0, Dropped(s, b, |KeptUpTo(s0, b, now, p, j)|), b, now, p, j + 1)
    ensures KeptUpTo(s0, b, now, p, j + 1) == KeptUpTo(s0, b, now, p, j)
  {
    ScanningMeans(s0, s, b, now, p, j);
    FreedMembers(s0, b, now, p, j, j);
    var kept := KeptUpTo(s0, b, now, p, j);
    assert s.table[b][|kept|] == s0.table[b][j];
    DropState(s0, s, b, j, (kept, []), FreedUpTo(s0, b, now, p, j), []);
  }

  lemma ScanKeep(s0: State, s: State, b: nat, now: int, p: Purge, j: nat)
    requires Walkable(s0, b) && j < |s0.table[b]| && Scanning(s0, s, b, now, p, j) && !Goes(s0, b, now, p, j)
    ensures Scanning(s0, s, b, now, p, j + 1)
    ensures |KeptUpTo(s0, b, now, p, j + 1)| == |KeptUpTo(s0, b, now, p, j)| + 1
  {
    ScanningMeans(s0, s, b, now, p, j);
    MissState(s0, s, b, j, (KeptUpTo(s0, b, now, p, j), []), FreedUpTo(s0, b, now, p, j), []);
  }

  /** The scan stops at its end, or at the first blocked entry. */
  ghost predicate Scanned(s0: State, s: State, b: nat, now: int, p: Purge, ok: bool)
    requires Walkable(s0, b)
  {
    exists j :: 0 <= j <= |s0.table[b]| && Scanning(s0, s, b, now, p, j)
      && (forall i :: 0 <= i < j ==> !Blocked(s0, b, now, p, i))
      && (ok <==> j == |s0.table[b]|) && (!ok ==> Blocked(s0, b, now, p, j))
  }

  /** The scan is over when the cursor is at the end of the chain. */
  lemma ScanEnd(s0: State, s: State, b: nat, now: int, p: Purge, j: nat)
    requires Walkable(s0, b) && j <= |s0.table[b]| && Scanning(s0, s, b, now, p, j)
    ensures b < |s.table| && (|KeptUpTo(s0, b, now, p, j)| < |s.table[b]| <==> j < |s0.table[b]|)
  {
    ScanningMeans(s0, s, b, now, p, j);
  }

  /** After a scan that was not blocked, the chain holds no expired record and none that
      clashes with the insert; what is left was there before, unchanged and in the same
      order. */
  lemma ScannedClean(s0: State, s: State, b: nat, now: int, p: Purge, x: Id)
    requires Walkable(s0, b) && Scanned(s0, s, b, now, p, true) && x in s.table[b]
    ensures x in s.rec && x in s0.rec && s.rec[x] == s0.rec[x] && x in s0.table[b]
    ensures !Expired(s.rec[x], now) && !Clashes(s.rec[x], p)
    ensures s.table[b] == KeptUpTo(s0, b, now, p, |s0.table[b]|)
  {
    var n := |s0.table[b]|;
    ScanningMeans(s0, s, b, now, p, n);
    assert s.table[b] == KeptUpTo(s0, b, now, p, n);
    KeptMembers(s0, b, now, p, n);
    var i :| 0 <= i < n && s0.table[b][i] == x && !Goes(s0, b, now, p, i);
    FreedMembers(s0, b, now, p, n, i);
  }

  // ---------- The scans over all chains ----------

  /** cache_scan_free without F_FORWARD, or the walk of cache_find_by_addr. */
  datatype Scan = Garbage(addr: seq<int>, flags: set<Flag>, now: int) | ForAddress(now: int)

  /** The entries a scan removes. */
  predicate Removes(r: Rec, t: Scan) {
    match t
    case Garbage(addr, flags, now) =>
      Expired(r, now) ||
      (!Given(r) && Reverse in flags && Reverse in r.flags && Meets(flags * r.flags, {Ipv4, Ipv6})
       && SameAddr(r.addr, addr, Ipv6 in flags))
    case ForAddress(now) => Reverse in r.flags && Expired(r, now)
  }

  /** The entry at which a scan leaves its chain. */
  predicate Stops(r: Rec, t: Scan) {
    if t.Garbage? then Reverse !in r.flags && Immortal in r.flags else Reverse !in r.flags
  }

  /** A full scan: every entry that is not removed. */
  function Keep(rec: map<Id, Rec>, t: Scan, xs: seq<Id>): (r: seq<Id>)
    requires forall i :: 0 <= i < |xs| ==> xs[i] in rec
  {
    if xs == [] then []
    else
      var (c, rest) := (xs[|xs| - 1], Keep(rec, t, xs[..|xs| - 1]));
      if Removes(rec[c], t) then rest else rest + [c]
  }

  lemma KeepNext(rec: map<Id, Rec>, t: Scan, xs: seq<Id>, j: nat)
    requires j < |xs| && forall i :: 0 <= i < |xs| ==> xs[i] in rec
    ensures Keep(rec, t, xs[..j + 1]) == if Removes(rec[xs[j]], t) then Keep(rec, t, xs[..j])
      else Keep(rec, t, xs[..j]) + [xs[j]]
  {
    assert xs[..j + 1][..j] == xs[..j];
  }

  lemma {:induction false} KeepRest(rec: map<Id, Rec>, t: Scan, xs: seq<Id>, j: nat, n: nat)
    requires j <= n <= |xs| && (forall i :: 0 <= i < |xs| ==> xs[i] in rec)
    requires forall i :: j <= i < n ==> !Removes(rec[xs[i]], t)
    ensures Keep(rec, t, xs[..n]) == Keep(rec, t, xs[..j]) + xs[j..n]
    decreases n
  {
    if j < n {
      KeepRest(rec, t, xs, j, n - 1);
      KeepNext(rec, t, xs, n - 1);
    }
  }

  /** Where a scan stops nothing that follows would be removed, so that stopping early leaves
      what a full scan leaves. */
  lemma EarlyExit(rec: map<Id, Rec>, chain: seq<Id>, b: nat, hash: string -> nat, size: nat, t: Scan, j: nat)
    requires size > 0 && ChainOk(rec, chain, b, hash, size) && j <= |chain|
    requires j < |chain| ==> Stops(rec[chain[j]], t)
    ensures Keep(rec, t, chain) == Keep(rec, t, chain[..j]) + chain[j..]
    ensures forall i :: j <= i < |chain| ==> Reverse !in rec[chain[i]].flags
  {
    forall i | j <= i < |chain|
      ensures !Removes(rec[chain[i]], t) && Reverse !in rec[chain[i]].flags
    {
      assert i > j ==> Rank(rec[chain[j]]) <= Rank(rec[chain[i]]);
    }
    KeepRest(rec, t, chain, j, |chain|);
    assert chain[..|chain|] == chain && chain[j..|chain|] == chain[j..];
  }

  /** Every entry of every chain was there before, with the same record. */
  ghost predicate Unchanged(s0: State, s: State) {
    && s.pool == s0.pool && s.hash == s0.hash && s.pending == s0.pending && |s.table| == |s0.table|
    && s.rec.Keys == s0.rec.Keys && |s.lru| == |s0.lru| && (forall x :: x in s0.rec ==> s.rec[x].name == s0.rec[x].name)
    && forall b, x {:trigger x in s.table[b]} ::
         0 <= b < |s.table| && x in s.table[b] ==> x in s0.table[b] && x in s.rec && s.rec[x] == s0.rec[x]
  }

  /** A scan of one chain leaves every entry unchanged or removes it. */
  lemma ScanningUnchanged(s0: State, s: State, b: nat, now: int, p: Purge, j: nat)
    requires Inv(s0) && Walkable(s0, b) && j <= |s0.table[b]| && Scanning(s0, s, b, now, p, j)
    ensures Unchanged(s0, s)
  {
    ScanningMeans(s0, s, b, now, p, j);
    forall k, x | 0 <= k < |s.table| && x in s.table[k]
      ensures x in s0.table[k] && x in s.rec && s.rec[x] == s0.rec[x]
    {
      if k == b {
        ScanningEntry(s0, s, b, now, p, j, x);
      } else {
        InvWalkable(s0, k);
        FreedInChain(s0, b, now, p, j, x);
        if x in FreedUpTo(s0, b, now, p, j) {
          OtherChains(s0, b, x);
        }
      }
    }
  }

  lemma {:induction false} FreedInChain(s: State, b: nat, now: int, p: Purge, j: nat, x: Id)
    requires Walkable(s, b) && j <= |s.table[b]|
    ensures x in FreedUpTo(s, b, now, p, j) ==> x in s.table[b]
    decreases j
  {
    if j > 0 {
      FreedInChain(s, b, now, p, j - 1, x);
    }
  }

  lemma ScanningEntry(s0: State, s: State, b: nat, now: int, p: Purge, j: nat, x: Id)
    requires Walkable(s0, b) && j <= |s0.table[b]| && Scanning(s0, s, b, now, p, j) && x in s.table[b]
    ensures x in s0.table[b] && x in s.rec && s.rec[x] == s0.rec[x]
  {
    ScanningMeans(s0, s, b, now, p, j);
    KeptMembers(s0, b, now, p, j);
    if x in KeptUpTo(s0, b, now, p, j) {
      var i :| 0 <= i < j && s0.table[b][i] == x && !Goes(s0, b, now, p, i);
      FreedMembers(s0, b, now, p, j, i);
    } else {
      assert x in s0.table[b][j..];
      var i :| j <= i < |s0.table[b]| && s0.table[b][i] == x;
      FreedMembers(s0, b, now, p, j, i);
    }
  }

  lemma ScannedUnchanged(s0: State, s: State, b: nat, now: int, p: Purge, ok: bool)
    requires Inv(s0) && Walkable(s0, b) && Scanned(s0, s, b, now, p, ok)
    ensures Unchanged(s0, s)
  {
    var j :| 0 <= j <= |s0.table[b]| && Scanning(s0, s, b, now, p, j);
    ScanningUnchanged(s0, s, b, now, p, j);
  }

  ghost predicate AllWalkable(s: State) {
    forall b :: 0 <= b < |s.table| ==> Walkable(s, b)
  }

  lemma InvAllWalkable(s: State)
    requires Inv(s)
    ensures AllWalkable(s) && Unchanged(s, s)
  {
    InvMeans(s);
    forall b | 0 <= b < |s.table|
      ensures Walkable(s, b) && forall x :: x in s.table[b] ==> x in s.rec
    {
      InvWalkable(s, b);
    }
  }

  /** The chains while a scan is at entry j of chain i. */
  ghost predicate Pruned(s0: State, s: State, t: Scan, i: nat, j: nat)
    requires AllWalkable(s0) && i <= |s0.table| && (i < |s0.table| ==> j <= |s0.table[i]|)
  {
    && Unchanged(s0, s)
    && (forall k :: 0 <= k < i ==> s.table[k] == KeptOf(s0, t, k, |s0.table[k]|))
    && (forall k :: i < k < |s0.table| ==> s.table[k] == s0.table[k])
    && (i < |s0.table| ==> s.table[i] == KeptOf(s0, t, i, j) + s0.table[i][j..])
  }

  /** What a full scan keeps of the first j entries of chain i. */
  ghost function KeptOf(s: State, t: Scan, i: nat, j: nat): (kept: seq<Id>)
    requires AllWalkable(s) && i < |s.table| && j <= |s.table[i]|
  {
    assert Walkable(s, i);
    Keep(s.rec, t, s.table[i][..j])
  }

  ghost function Cut(s0: State, t: Scan, i: nat, j: nat): nat
    requires AllWalkable(s0) && i < |s0.table| && j <= |s0.table[i]|
  {
    |KeptOf(s0, t, i, j)|
  }

  /** The entry a scan is at. */
  lemma PruneAt(s0: State, s: State, t: Scan, i: nat, j: nat)
    requires AllWalkable(s0) && i < |s0.table| && j < |s0.table[i]| && Pruned(s0, s, t, i, j) && Inv(s)
    ensures var (c, up) := (s0.table[i][j], Cut(s0, t, i, j));
            Visitable(s, i, up) && s.table[i][up] == c && s.rec[c] == s0.rec[c] && (c in s.pool ==> InUse(s.rec[c]))
  {
    assert Walkable(s0, i);
    assert s.table[i][Cut(s0, t, i, j)] == s0.table[i][j];
    assert s.table[i][Cut(s0, t, i, j)] in s.table[i];
    InChain(s, i, Cut(s0, t, i, j));
  }

  lemma OtherChains(s: State, i: nat, c: Id)
    requires Inv(s) && i < |s.table| && c in s.table[i]
    ensures forall k :: 0 <= k < |s.table| && k != i ==> c !in s.table[k]
  {
    InvMeans(s);
    forall k | 0 <= k < |s.table| && k != i
      ensures c !in s.table[k]
    {
      assert ChainOk(s.rec, s.table[k], k, s.hash, |s.table|);
      assert ChainOk(s.rec, s.table[i], i, s.hash, |s.table|);
    }
  }

  lemma UnchangedDrop(s0: State, s: State, i: nat, up: nat)
    requires Unchanged(s0, s) && Inv(s) && Visitable(s, i, up)
    ensures Unchanged(s0, Dropped(s, i, up))
  {
    InvWalkable(s, i);
    var c, s' := s.table[i][up], Dropped(s, i, up);
    OtherChains(s, i, c);
    forall b, x | 0 <= b < |s'.table| && x in s'.table[b]
      ensures x in s0.table[b] && x in s'.rec && s'.rec[x] == s0.rec[x]
    {
      assert x in s.table[b] && x != c;
    }
  }

  lemma RemoveAfter(kept: seq<Id>, rest: seq<Id>)
    requires rest != []
    ensures RemoveAt(kept + rest, |kept|) == kept + rest[1..]
  {
  }

  lemma KeptOfNext(s: State, t: Scan, i: nat, j: nat)
    requires AllWalkable(s) && i < |s.table| && j < |s.table[i]|
    ensures s.table[i][j] in s.rec
    ensures KeptOf(s, t, i, j + 1)
         == if Removes(s.rec[s.table[i][j]], t) then KeptOf(s, t, i, j) else KeptOf(s, t, i, j) + [s.table[i][j]]
  {
    assert Walkable(s, i);
    KeepNext(s.rec, t, s.table[i], j);
  }

  lemma PruneDrop(s0: State, s: State, t: Scan, i: nat, j: nat)
    requires AllWalkable(s0) && i < |s0.table| && j < |s0.table[i]| && Pruned(s0, s, t, i, j) && Inv(s)
    requires Visitable(s, i, Cut(s0, t, i, j)) && s0.table[i][j] in s0.rec && Removes(s0.rec[s0.table[i][j]], t)
    ensures Pruned(s0, Dropped(s, i, Cut(s0, t, i, j)), t, i, j + 1)
    ensures Cut(s0, t, i, j + 1) == Cut(s0, t, i, j)
  {
    UnchangedDrop(s0, s, i, Cut(s0, t, i, j));
    KeptOfNext(s0, t, i, j);
    RemoveAfter(KeptOf(s0, t, i, j), s0.table[i][j..]);
    assert s0.table[i][j..][1..] == s0.table[i][j + 1..];
  }

  lemma PruneKeep(s0: State, s: State, t: Scan, i: nat, j: nat)
    requires AllWalkable(s0) && i < |s0.table| && j < |s0.table[i]| && Pruned(s0, s, t, i, j)
    requires s0.table[i][j] in s0.rec && !Removes(s0.rec[s0.table[i][j]], t)
    ensures Pruned(s0, s, t, i, j + 1) && Cut(s0, t, i, j + 1) == Cut(s0, t, i, j) + 1
  {
    KeptOfNext(s0, t, i, j);
    TakeFirst(KeptOf(s0, t, i, j), s0.table[i], j);
  }

  lemma TakeFirst(kept: seq<Id>, chain: seq<Id>, j: nat)
    requires j < |chain|
    ensures kept + chain[j..] == kept + [chain[j]] + chain[j + 1..]
  {
  }

  lemma StopKeeps(s: State, t: Scan, i: nat, j: nat)
    requires ChainsOk(s) && AllWalkable(s) && i < |s.table| && j <= |s.table[i]|
    requires j < |s.table[i]| ==> s.table[i][j] in s.rec && Stops(s.rec[s.table[i][j]], t)
    ensures KeptOf(s, t, i, |s.table[i]|) == KeptOf(s, t, i, j) + s.table[i][j..]
  {
    assert ChainOk(s.rec, s.table[i], i, s.hash, |s.table|);
    EarlyExit(s.rec, s.table[i], i, s.hash, |s.table|, t, j);
    assert s.table[i][..|s.table[i]|] == s.table[i];
  }

  /** The scan leaves chain i, early or at its end, for the next one. */
  lemma PruneNext(s0: State, s: State, t: Scan, i: nat, j: nat)
    requires ChainsOk(s0) && AllWalkable(s0) && i < |s0.table| && j <= |s0.table[i]| && Pruned(s0, s, t, i, j)
    requires j < |s0.table[i]| ==> s0.table[i][j] in s0.rec && Stops(s0.rec[s0.table[i][j]], t)
    ensures Pruned(s0, s, t, i + 1, 0)
    ensures i + 1 < |s0.table| ==> Cut(s0, t, i + 1, 0) == 0
  {
    StopKeeps(s0, t, i, j);
    if i + 1 < |s0.table| {
      assert s0.table[i + 1][..0] == [];
      assert [] + s0.table[i + 1][0..] == s0.table[i + 1];
    }
  }

  lemma PruneStart(s: State, t: Scan)
    requires Inv(s)
    ensures AllWalkable(s) && Pruned(s, s, t, 0, 0) && Cut(s, t, 0, 0) == 0
  {
    InvAllWalkable(s);
    assert s.table[0][..0] == [];
    assert [] + s.table[0][0..] == s.table[0];
  }

  // ---------- Making room ----------

  /** The record is found by the scan that is meant to evict it. */
  predicate Evictable(r: Rec) {
    if Forward in r.flags then Meets(r.flags * r.flags, {Ipv4, Ipv6, DnsKey, Ds}) || Cname in r.flags
    else Meets(r.flags * r.flags, {Ipv4, Ipv6}) && |r.addr| >= if Ipv6 in r.flags then 16 else 4
  }

  /** The list keeps its members through a scan. */
  lemma ListKept(s0: State, s: State, v: Id)
    requires Inv(s0) && Inv(s) && Unchanged(s0, s) && v in s0.lru
    ensures v in s.lru && v in s.rec && v in s0.rec && v in s0.pool
  {
    InvMeans(s0);
    InvMeans(s);
  }

  lemma {:induction false} KeepMembers(rec: map<Id, Rec>, t: Scan, xs: seq<Id>, x: Id)
    requires forall i :: 0 <= i < |xs| ==> xs[i] in rec
    requires x in Keep(rec, t, xs)
    ensures x in rec && !Removes(rec[x], t)
    decreases |xs|
  {
    var (c, rest) := (xs[|xs| - 1], Keep(rec, t, xs[..|xs| - 1]));
    if x in rest {
      KeepMembers(rec, t, xs[..|xs| - 1], x);
    }
  }

  lemma {:induction false} KeepKept(rec: map<Id, Rec>, t: Scan, xs: seq<Id>, i: nat)
    requires i < |xs| && (forall i :: 0 <= i < |xs| ==> xs[i] in rec) && !Removes(rec[xs[i]], t)
    ensures xs[i] in Keep(rec, t, xs)
    decreases |xs|
  {
    if i < |xs| - 1 {
      KeepKept(rec, t, xs[..|xs| - 1], i);
    }
  }

  /** What the scan meant to evict record r takes out of the chains: entry i of chain b. The scan
      for a forward record gets as far as a record that may not be removed. */
  ghost predicate Loses(s: State, r: Rec, now: int, b: nat, i: nat)
    requires Inv(s) && Walkable(s, b) && i < |s.table[b]|
  {
    if Forward in r.flags then
      var p := ByName(r.name, r.flags);
      b == NameBucket(s, r.name) && Goes(s, b, now, p, i) && forall h :: 0 <= h <= i ==> !Blocked(s, b, now, p, h)
    else Removes(s.rec[s.table[b][i]], Garbage(r.addr, r.flags, now))
  }

  /** The scan cache_insert makes with the name, the address and the flags of record r. */
  ghost predicate Evicted(s: State, s': State, r: Rec, now: int, ok: bool)
    requires Inv(s) && AllWalkable(s)
  {
    && (Forward in r.flags ==> Scanned(s, s', NameBucket(s, r.name), now, ByName(r.name, r.flags), ok))
    && (Forward !in r.flags ==> Pruned(s, s', Garbage(r.addr, r.flags, now), |s.table|, 0))
  }

  lemma ScanLoses(s: State, s': State, b: nat, now: int, p: Purge, ok: bool, i: nat)
    requires Walkable(s, b) && i < |s.table[b]| && Scanned(s, s', b, now, p, ok)
    ensures |s'.table| == |s.table| && forall c :: 0 <= c < |s.table| && c != b ==> s'.table[c] == s.table[c]
    ensures s.table[b][i] !in s'.table[b]
       <==> Goes(s, b, now, p, i) && forall h :: 0 <= h <= i ==> !Blocked(s, b, now, p, h)
  {
    var j :| 0 <= j <= |s.table[b]| && Scanning(s, s', b, now, p, j)
      && (forall i :: 0 <= i < j ==> !Blocked(s, b, now, p, i)) && (j < |s.table[b]| ==> Blocked(s, b, now, p, j));
    ScanningMeans(s, s', b, now, p, j);
    KeptMembers(s, b, now, p, j);
    var kept, rest := KeptUpTo(s, b, now, p, j), s.table[b][j..];
    assert s'.table[b] == kept + rest;
    if i < j {
      assert s.table[b][i] in kept <==> !Goes(s, b, now, p, i);
      assert s.table[b][i] !in rest;
    } else {
      assert rest[i - j] == s.table[b][i];
    }
  }

  lemma EvictedLoses(s: State, s': State, r: Rec, now: int, ok: bool, b: nat, i: nat)
    requires Inv(s) && AllWalkable(s) && Evicted(s, s', r, now, ok) && Walkable(s, b) && i < |s.table[b]|
    ensures |s'.table| == |s.table| && (s.table[b][i] !in s'.table[b] <==> Loses(s, r, now, b, i))
  {
    if Forward in r.flags {
      var c := NameBucket(s, r.name);
      if b == c {
        ScanLoses(s, s', b, now, ByName(r.name, r.flags), ok, i);
      } else if s.table[c] != [] {
        ScanLoses(s, s', c, now, ByName(r.name, r.flags), ok, 0);
      } else {
        ScanNothing(s, s', c, now, ByName(r.name, r.flags), ok);
      }
    } else {
      var t := Garbage(r.addr, r.flags, now);
      var chain := s.table[b];
      assert s'.table[b] == KeptOf(s, t, b, |chain|) && chain[..|chain|] == chain;
      if Removes(s.rec[chain[i]], t) {
        if chain[i] in s'.table[b] {
          KeepMembers(s.rec, t, chain, chain[i]);
        }
      } else {
        KeepKept(s.rec, t, chain, i);
      }
    }
  }

  lemma ScanNothing(s: State, s': State, b: nat, now: int, p: Purge, ok: bool)
    requires Walkable(s, b) && s.table[b] == [] && Scanned(s, s', b, now, p, ok)
    ensures s'.table == s.table
  {
    ScanningMeans(s, s', b, now, p, 0);
    assert s'.table[b] == s.table[b];
  }

  lemma PendingKnown(s: State)
    requires Inv(s)
    ensures forall i :: 0 <= i < |s.pending| ==> s.pending[i] in s.rec
  {
    InvMeans(s);
    assert forall i :: 0 <= i < |s.pending| ==> s.pending[i] in s.pending;
  }

  /** A position with smaller ranks before it and none after it is where cache_hash inserts. */
  lemma {:induction false} HashPosIs(rec: map<Id, Rec>, chain: seq<Id>, r: Rec, k: nat)
    requires k <= |chain| && forall i :: 0 <= i < |chain| ==> chain[i] in rec
    requires forall i :: 0 <= i < k ==> Rank(rec[chain[i]]) < Rank(r)
    requires k < |chain| ==> Rank(rec[chain[k]]) >= Rank(r)
    ensures k == HashPos(rec, chain, r)
  {
  }

  // ---------- Committing ----------

  /** One pending record: an alias whose target did not arrive goes back to the list, any other
      record is hashed and becomes the youngest. */
  ghost function CommitOne(s: State): (r: State)
    requires Inv(s) && s.pending != []
    ensures Inv(r) && r.pending == s.pending[1..]
  {
    PendingKnown(s);
    InvMeans(s);
    ChainsHaveRecords(s);
    if Outdated(s.rec, s.rec[s.pending[0]]) then RecoveredInv(s); Recovered(s)
    else CommittedInv(s); Committed(s)
  }

  ghost function CommitAll(s: State): (r: State)
    requires Inv(s)
    ensures Inv(r) && r.pending == []
    decreases |s.pending|
  {
    if s.pending == [] then s else CommitAll(CommitOne(s))
  }

  lemma CommitOneEntries(s: State)
    requires Inv(s) && s.pending != []
    ensures var r := CommitOne(s);
            && |r.table| == |s.table| && r.rec.Keys == s.rec.Keys
            && (forall b, x {:trigger x in r.table[b]} :: 0 <= b < |s.table| && x in r.table[b] ==>
               x in s.table[b] || x == s.pending[0])
            && (forall b, x {:trigger x in s.table[b]} :: 0 <= b < |s.table| && x in s.table[b] ==> x in r.table[b])
  {
    PendingKnown(s);
    InvMeans(s);
    ChainsHaveRecords(s);
  }

  /** A commit makes pending records findable and no others, and removes none. */
  lemma {:induction false} CommitEntries(s: State)
    requires Inv(s)
    ensures var r := CommitAll(s);
            && |r.table| == |s.table| && r.rec.Keys == s.rec.Keys
            && (forall b, x {:trigger x in r.table[b]} :: 0 <= b < |s.table| && x in r.table[b] ==>
               x in s.table[b] || x in s.pending)
            && (forall b, x {:trigger x in s.table[b]} :: 0 <= b < |s.table| && x in s.table[b] ==> x in r.table[b])
    decreases |s.pending|
  {
    if s.pending != [] {
      CommitOneEntries(s);
      CommitEntries(CommitOne(s));
      TailMembers(s.pending);
    }
  }

  /** A commit makes every pending record findable but, perhaps, an alias. */
  lemma {:induction false} CommitHashes(s: State, id: Id)
    requires Inv(s) && id in s.pending && id in s.rec && Cname !in s.rec[id].flags
    ensures Entry(CommitAll(s).table, id)
    decreases |s.pending|
  {
    var s' := CommitOne(s);
    CommitOneKeeps(s, id);
    if s.pending[0] == id {
      CommitEntries(s');
    } else {
      CommitHashes(s', id);
    }
  }

  lemma CommitOneKeeps(s: State, id: Id)
    requires Inv(s) && id in s.pending && id in s.rec && Cname !in s.rec[id].flags
    ensures s.pending[0] == id ==> Entry(CommitOne(s).table, id)
    ensures s.pending[0] != id ==>
      var s' := CommitOne(s); id in s'.pending && id in s'.rec && Cname !in s'.rec[id].flags
  {
    PendingKnown(s);
    InvMeans(s);
    ChainsHaveRecords(s);
    if s.pending[0] == id {
      var b := BucketOf(s.hash, |s.table|, s.rec[id].name);
      assert id in CommitOne(s).table[b];
    }
  }

  // ---------- Why an insert fails ----------

  datatype Failure =
    | Earlier              // an insert of this transaction failed before
    | NameHeld             // the name belongs to a hosts file or a lease
    | NoRecord             // every pool record is pending
    | EvictionHeld         // the oldest record could not be evicted
    | NoLongName           // no memory for a name of more than 39 characters
    | Inserted

  /** The oldest record is in use, and the scan meant to evict it takes no pool record out of the
      chains. */
  ghost predicate Stuck(s: State, now: int)
    requires Inv(s) && AllWalkable(s)
  {
    && s.lru != [] && s.lru[|s.lru| - 1] in s.rec && InUse(s.rec[s.lru[|s.lru| - 1]])
    && forall b, i :: 0 <= b < |s.table| && 0 <= i < |s.table[b]| && s.table[b][i] in s.pool ==>
       !Loses(s, s.rec[s.lru[|s.lru| - 1]], now, b, i)
  }

  /** A record of the list is in use after the scan exactly if it has not been taken out of its chain. */
  lemma LostIsFree(s: State, s': State, r: Rec, now: int, ok: bool, b: nat, i: nat)
    requires Inv(s) && Inv(s') && Unchanged(s, s') && AllWalkable(s) && Evicted(s, s', r, now, ok)
    requires Walkable(s, b) && i < |s.table[b]| && s.table[b][i] in s.pool
    ensures var x := s.table[b][i]; x in s'.lru && x in s'.rec && (InUse(s'.rec[x]) <==> !Loses(s, r, now, b, i))
  {
    var x := s.table[b][i];
    InvMeans(s);
    assert x in s.table[b] && ChainOk(s.rec, s.table[b], b, s.hash, |s.table|);
    ListKept(s, s', x);
    InvMeans(s');
    EvictedLoses(s, s', r, now, ok, b, i);
    assert BucketOf(s'.hash, |s'.table|, s'.rec[x].name) == b;
  }

  /** A used record at the end of the list means that no other record of it is free. */
  lemma TailUsed(s: State, x: Id)
    requires Inv(s) && x in s.lru && s.lru[|s.lru| - 1] in s.rec && InUse(s.rec[s.lru[|s.lru| - 1]])
    ensures x in s.rec && InUse(s.rec[x])
  {
    InvMeans(s);
    var k := IndexOf(s.lru, x);
    assert k < |s.lru| - 1 ==> InUse(s.rec[s.lru[k]]);
  }

  lemma UsedIsHashed(s: State, x: Id) returns (b: nat, i: nat)
    requires Inv(s) && x in s.lru && x in s.rec && InUse(s.rec[x])
    ensures Walkable(s, b) && i < |s.table[b]| && s.table[b][i] == x && x in s.pool
  {
    InvMeans(s);
    b := BucketOf(s.hash, |s.table|, s.rec[x].name);
    i := IndexOf(s.table[b], x);
    InvWalkable(s, b);
  }

  /** The record at the end of the list is free after the scan unless the scan was stuck: the belief
      that there is free space now is right exactly then. */
  lemma EvictionExactly(s: State, s': State, now: int, ok: bool)
    requires Inv(s) && Inv(s') && Unchanged(s, s') && AllWalkable(s) && s.lru != []
    requires s.lru[|s.lru| - 1] in s.rec && InUse(s.rec[s.lru[|s.lru| - 1]])
    requires Evicted(s, s', s.rec[s.lru[|s.lru| - 1]], now, ok)
    ensures s'.lru != [] && s'.lru[|s'.lru| - 1] in s'.rec
    ensures InUse(s'.rec[s'.lru[|s'.lru| - 1]]) <==> Stuck(s, now)
  {
    var v := s.lru[|s.lru| - 1];
    ListKept(s, s', v);
    var tail := s'.lru[|s'.lru| - 1];
    TailKnown(s');
    if InUse(s'.rec[tail]) {
      UsedTailStuck(s, s', now, ok);
    } else {
      MembersKept(s, s', tail);
      TailUsed(s, tail);
      var b, i := UsedIsHashed(s, tail);
      LostIsFree(s, s', s.rec[v], now, ok, b, i);
    }
  }

  lemma MembersKept(s: State, s': State, x: Id)
    requires Inv(s) && Inv(s') && Unchanged(s, s') && x in s'.lru
    ensures x in s.lru
  {
    InvMeans(s);
    InvMeans(s');
  }

  lemma UsedTailStuck(s: State, s': State, now: int, ok: bool)
    requires Inv(s) && Inv(s') && Unchanged(s, s') && AllWalkable(s) && s.lru != [] && s'.lru != []
    requires s.lru[|s.lru| - 1] in s.rec && InUse(s.rec[s.lru[|s.lru| - 1]])
    requires s'.lru[|s'.lru| - 1] in s'.rec && InUse(s'.rec[s'.lru[|s'.lru| - 1]])
    requires Evicted(s, s', s.rec[s.lru[|s.lru| - 1]], now, ok)
    ensures Stuck(s, now)
  {
    var r := s.rec[s.lru[|s.lru| - 1]];
    forall b, i | 0 <= b < |s.table| && 0 <= i < |s.table[b]| && s.table[b][i] in s.pool
      ensures !Loses(s, r, now, b, i)
    {
      assert Walkable(s, b);
      LostIsFree(s, s', r, now, ok, b, i);
      TailUsed(s', s.table[b][i]);
    }
  }

  /** The oldest record itself survives exactly if the scan does not look for its type and it is
      neither expired nor outdated, or if a record that may not be removed comes before it. */
  lemma OldestSurvives(s: State, s': State, now: int, ok: bool, b: nat, k: nat)
    requires Inv(s) && Inv(s') && Unchanged(s, s') && AllWalkable(s) && s.lru != []
    requires Walkable(s, b) && k < |s.table[b]| && s.table[b][k] == s.lru[|s.lru| - 1]
    requires Evicted(s, s', s.rec[s.table[b][k]], now, ok)
    ensures var (v, r) := (s.table[b][k], s.rec[s.table[b][k]]); var p := ByName(r.name, r.flags);
            && v in s'.rec
            && (InUse(s'.rec[v]) <==>
                if Forward in r.flags then
                  || (!Evictable(r) && !Stale(s.rec, r, now, FreedUpTo(s, b, now, p, k)))
                  || (exists i :: 0 <= i < k && Blocked(s, b, now, p, i))
                else !Evictable(r) && !Expired(r, now))
  {
    InvMeans(s);
    var v, r := s.table[b][k], s.rec[s.table[b][k]];
    assert v in s.table[b] && v in s.lru && ChainOk(s.rec, s.table[b], b, s.hash, |s.table|);
    LostIsFree(s, s', r, now, ok, b, k);
  }

  /** A lease of the same name before the oldest record: nothing can be evicted. */
  lemma StuckExample() returns (s: State)
    ensures Inv(s) && AllWalkable(s) && Stuck(s, 0) && s.pool == {0} && s.lru == [0] && s.table == [[1, 0]]
    ensures 0 in s.rec && 1 in s.rec && !Expired(s.rec[1], 0) && Dhcp in s.rec[1].flags && Evictable(s.rec[0])
  {
    var lease := Rec({Forward, Ipv4, Dhcp}, "a", [1, 2, 3, 4], 9, 0, None, 0);
    var oldest := Rec({Forward, Ipv4}, "a", [1, 2, 3, 5], 9, 0, None, 0);
    s := State({0}, n => 0, map[0 := oldest, 1 := lease], [0], [], [[1, 0]], 1);
    LeaseFirst(s, lease, oldest);
    InvAllWalkable(s);
    LeaseBlocks(s, lease, oldest);
  }

  lemma LeaseFirst(s: State, lease: Rec, oldest: Rec)
    requires lease == Rec({Forward, Ipv4, Dhcp}, "a", [1, 2, 3, 4], 9, 0, None, 0)
    requires oldest == Rec({Forward, Ipv4}, "a", [1, 2, 3, 5], 9, 0, None, 0)
    requires s == State({0}, s.hash, map[0 := oldest, 1 := lease], [0], [], [[1, 0]], 1)
    ensures Inv(s)
  {
    assert BucketOf(s.hash, 1, "a") == 0;
    assert Partition(s) && RecordsOk(s) && UsedFirst(s.rec, s.lru) && ChainsOk(s) && HashedWhenUsed(s);
  }

  lemma LeaseBlocks(s: State, lease: Rec, oldest: Rec)
    requires lease == Rec({Forward, Ipv4, Dhcp}, "a", [1, 2, 3, 4], 9, 0, None, 0)
    requires oldest == Rec({Forward, Ipv4}, "a", [1, 2, 3, 5], 9, 0, None, 0)
    requires s == State({0}, s.hash, map[0 := oldest, 1 := lease], [0], [], [[1, 0]], 1)
    requires Inv(s) && AllWalkable(s)
    ensures Stuck(s, 0) && Evictable(oldest)
  {
    var p := ByName("a", {Forward, Ipv4});
    assert Walkable(s, 0) && FreedUpTo(s, 0, 0, p, 0) == {};
    assert Ipv4 in p.flags * lease.flags * {Ipv4, Ipv6, DnsKey, Ds};
    assert Ipv4 in oldest.flags * oldest.flags * {Ipv4, Ipv6, DnsKey, Ds};
    assert lease.name == p.name && Clashes(lease, p);
    assert Blocked(s, 0, 0, p, 0);
  }

  lemma UnchangedTrans(s0: State, s1: State, s2: State)
    requires Unchanged(s0, s1) && Unchanged(s1, s2)
    ensures Unchanged(s0, s2)
  {
  }

  lemma TailKnown(s: State)
    requires Inv(s) && s.lru != []
    ensures var id := s.lru[|s.lru| - 1];
            && id in s.rec && id in s.pool && !Given(s.rec[id]) && s.rec[id].uid < s.uid
            && (s.rec[id].target.Some? && s.rec[id].target.value in s.pool ==> s.rec[id].targetUid < s.uid)
  {
    InvMeans(s);
    assert s.lru[|s.lru| - 1] in s.lru;
  }

  /** The contents cache_insert gives the record it takes. */
  function Filled(r: Rec, name: Option<string>, addr: Option<seq<int>>, ttd: int, flags: set<Flag>): Rec {
    r.(flags := if LongName(name) then flags + {BigName} else flags,
       name := if name.Some? then name.value else "",
       addr := if addr.Some? then addr.value else r.addr,
       ttd := ttd)
  }

  /** strlen(name) > SMALLDNAME - 1. */
  predicate LongName(name: Option<string>) {
    name.Some? && |name.value| > 39
  }

  /** max_cache_ttl, where zero means no limit. */
  function CappedTtl(ttl: nat, maxTtl: nat): nat {
    if maxTtl != 0 && maxTtl < ttl then maxTtl else ttl
  }

  lemma FilledOk(r: Rec, name: Option<string>, addr: Option<seq<int>>, ttd: int, flags: set<Flag>)
    requires Meets(flags, {Forward, Reverse}) && Hosts !in flags && Dhcp !in flags
    ensures var f := Filled(r, name, addr, ttd, flags);
            InUse(f) && !Given(f) && f.uid == r.uid && f.target == r.target && f.targetUid == r.targetUid
  {
  }

  lemma GivenReady(s: State, id: Id, r: Rec)
    requires Inv(s) && id !in s.rec && Given(r) && (r.target.Some? && r.target.value in s.pool ==> r.targetUid < s.uid)
    ensures |s.table| > 0 && ChainsOk(s.(rec := s.rec[id := r]))
    ensures forall b, i :: 0 <= b < |s.table| && 0 <= i < |s.table[b]| ==> s.table[b][i] in s.rec
    ensures Inv(GivenIn(s, id, r))
  {
    InvMeans(s);
    ChainsHaveRecords(s);
    GivenInInv(s, id, r);
    ChainsFrame(s, id, r);
  }

  /** The only reasons why an insert that is tried fails. */
  ghost predicate Failed(s0: State, s: State, before: State, why: Failure,
                         name: Option<string>, now: int, flags: set<Flag>, longNameFits: bool)
  {
    match why
    case Earlier => false
    case NameHeld =>
      Inv(s0) && Forward in flags && name.Some?
      && Scanned(s0, s, NameBucket(s0, name.value), now, ByName(name.value, flags), false)
    case NoRecord => s0.lru == []
    case EvictionHeld => s0.lru != [] && Inv(before) && AllWalkable(before) && Stuck(before, now)
    case NoLongName => LongName(name) && !longNameFits
    case Inserted => false
  }

  /** The entry a scan is at has the record it had. */
  lemma EntrySame(s0: State, s: State, t: Scan, i: nat, j: nat)
    requires AllWalkable(s0) && i < |s0.table| && j < |s0.table[i]| && Pruned(s0, s, t, i, j)
    ensures Cut(s0, t, i, j) < |s.table[i]| && s.table[i][Cut(s0, t, i, j)] == s0.table[i][j]
    ensures s0.table[i][j] in s0.rec && s0.table[i][j] in s.rec && s.rec[s0.table[i][j]] == s0.rec[s0.table[i][j]]
  {
    assert Walkable(s0, i);
    assert s.table[i][Cut(s0, t, i, j)] == s0.table[i][j];
    assert s0.table[i][j] in s.table[i];
  }

  // ---------- The table ----------

  /** The first of 64, 128, 256, ... that is at least a tenth of the given size. */
  function NewSize(size: nat): nat {
    NewSizeFrom(size, 64)
  }

  function NewSizeFrom(size: nat, n: nat): nat
    requires n > 0
    decreases size - n
  {
    if n < size / 10 then NewSizeFrom(size, 2 * n) else n
  }

  /** x hangs in some chain. */
  ghost predicate Entry(table: seq<seq<Id>>, x: Id) {
    exists b :: 0 <= b < |table| && x in table[b]
  }

  /** x hangs in a chain before i, or among the first j entries of chain i. */
  ghost predicate EntryBefore(table: seq<seq<Id>>, i: nat, j: nat, x: Id) {
    (exists b :: 0 <= b < i && b < |table| && x in table[b]) || (i < |table| && j <= |table[i]| && x in table[i][..j])
  }

  ghost predicate SameEntries(a: seq<seq<Id>>, b: seq<seq<Id>>) {
    forall x {:trigger Entry(a, x)} {:trigger Entry(b, x)} :: Entry(a, x) <==> Entry(b, x)
  }

  /** The numbers below n. */
  function Ids(n: nat): (s: set<Id>)
    ensures forall x: Id :: x in s <==> x < n
  {
    if n == 0 then {} else Ids(n - 1) + {n - 1}
  }

  /** The state cache_init leaves: n free records, the last one linked in first. */
  ghost predicate Initial(s: State, n: nat) {
    && (forall x: Id :: x in s.pool <==> x < n) && s.rec.Keys == s.pool
    && s.pending == [] && s.uid == n && |s.lru| == n && |s.table| > 0
    && (forall k :: 0 <= k < n ==> s.rec[k] == Rec({}, "", [], 0, k, None, 0) && s.lru[k] == n - 1 - k)
    && (forall b :: 0 <= b < |s.table| ==> s.table[b] == [])
  }

  lemma InitialPartition(s: State, n: nat)
    requires Initial(s, n)
    ensures Partition(s)
  {
    forall id | id in s.pool
      ensures id in s.lru
    {
      assert s.lru[n - 1 - id] == id;
    }
  }

  lemma InitialRecords(s: State, n: nat)
    requires Initial(s, n)
    ensures RecordsOk(s) && forall id :: id in s.rec ==> !InUse(s.rec[id])
  {
  }

  /** Nothing in use and nothing hashed. */
  lemma IdleInv(s: State)
    requires Partition(s) && RecordsOk(s) && |s.table| > 0
    requires forall id :: id in s.rec ==> !InUse(s.rec[id])
    requires forall b :: 0 <= b < |s.table| ==> s.table[b] == []
    ensures Inv(s)
  {
  }

  lemma InitialInv(s: State, n: nat)
    requires Initial(s, n)
    ensures Inv(s)
  {
    InitialPartition(s, n);
    InitialRecords(s, n);
    IdleInv(s);
  }

  /** The next entry of the old table is not yet in the new one. */
  lemma MoveOver(s0: State, s: State, i: nat, j: nat)
    requires Inv(s0) && i < |s0.table| && j < |s0.table[i]| && s == s0.(table := s.table) && ChainsOk(s)
    requires forall x {:trigger Entry(s.table, x)} :: Entry(s.table, x) <==> EntryBefore(s0.table, i, j, x)
    ensures var id := s0.table[i][j];
            && id in s.rec && (forall b :: 0 <= b < |s.table| ==> id !in s.table[b])
            && (forall b, k :: 0 <= b < |s.table| && 0 <= k < |s.table[b]| ==> s.table[b][k] in s.rec)
            && ChainsOk(HashedIn(s, id))
            && (forall x {:trigger Entry(HashedIn(s, id).table, x)} ::
                  Entry(HashedIn(s, id).table, x) <==> EntryBefore(s0.table, i, j + 1, x))
  {
    var id := s0.table[i][j];
    InvWalkable(s0, i);
    OtherChains(s0, i, id);
    ChainsHaveRecords(s);
    assert id !in s0.table[i][..j];
    assert !Entry(s.table, id);
    HashedInChains(s, id);
    var s' := HashedIn(s, id);
    forall x
      ensures Entry(s'.table, x) <==> Entry(s.table, x) || x == id
    {
      HashedInEntries(s, id, x);
    }
    assert s0.table[i][..j + 1] == s0.table[i][..j] + [id];
  }

  lemma HashedInEntries(s: State, id: Id, x: Id)
    requires id in s.rec && |s.table| > 0
    requires forall b, i :: 0 <= b < |s.table| && 0 <= i < |s.table[b]| ==> s.table[b][i] in s.rec
    ensures Entry(HashedIn(s, id).table, x) <==> Entry(s.table, x) || x == id
  {
    var s', b := HashedIn(s, id), BucketOf(s.hash, |s.table|, s.rec[id].name);
    if Entry(s.table, x) {
      var c :| 0 <= c < |s.table| && x in s.table[c];
      assert x in s'.table[c];
    }
    assert id in s'.table[b];
    if Entry(s'.table, x) {
      var c :| 0 <= c < |s'.table| && x in s'.table[c];
      assert x == id || x in s.table[c];
    }
  }

  lemma NextChainOver(table: seq<seq<Id>>, i: nat)
    requires i < |table|
    ensures forall x :: EntryBefore(table, i, |table[i]|, x) <==> EntryBefore(table, i + 1, 0, x)
  {
  }

  /** Moving every entry to a new table keeps the invariant. */
  lemma RehashedInv(s0: State, table: seq<seq<Id>>)
    requires Inv(s0) && ChainsOk(s0.(table := table))
    requires forall x {:trigger Entry(table, x)} :: Entry(table, x) <==> EntryBefore(s0.table, |s0.table|, 0, x)
    ensures Inv(s0.(table := table)) && SameEntries(s0.table, table)
  {
    InvMeans(s0);
    var s := s0.(table := table);
    forall x
      ensures Entry(s0.table, x) <==> Entry(table, x)
    {
      assert Entry(table, x) <==> EntryBefore(s0.table, |s0.table|, 0, x);
    }
    forall b, id | 0 <= b < |table| && id in table[b] && id in s.pool
      ensures id in s.lru && id in s.rec && InUse(s.rec[id])
    {
      assert Entry(table, id);
      var c :| 0 <= c < |s0.table| && id in s0.table[c];
    }
    forall id | id in s.lru && id in s.rec && InUse(s.rec[id])
      ensures id in table[BucketOf(s.hash, |table|, s.rec[id].name)]
    {
      assert Entry(s0.table, id);
      assert Entry(table, id);
      var c :| 0 <= c < |table| && id in table[c];
      assert ChainOk(s.rec, table[c], c, s.hash, |table|);
    }
    assert HashedWhenUsed(s);
  }
}
