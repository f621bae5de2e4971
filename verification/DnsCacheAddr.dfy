module DnsCacheAddr {
  // The search of cache_find_by_addr: it visits the reverse entries at the head of every chain,
  // and its answers are the ones of a search through all entries of all chains.

  import opened Common
  import opened DnsCache
  import opened DnsCacheWalk
  import opened DnsCacheSearch
  import opened DnsCacheScan

  /** The question: an address, the protocol flags, and the time. */
  datatype Question = Question(addr: seq<int>, prot: set<Flag>, now: int)

  predicate AddrHit(r: Rec, q: Question) {
    Reverse in r.flags && Meets(r.flags, q.prot) && SameAddr(r.addr, q.addr, q.prot == {Ipv6})
  }

  /** Entry k of chain i answers the question. */
  ghost predicate Answer(s: State, q: Question, i: nat, k: nat)
    requires AllWalkable(s) && i < |s.table| && k < |s.table[i]|
  {
    assert Walkable(s, i);
    var r := s.rec[s.table[i][k]];
    AddrHit(r, q) && !Expired(r, q.now)
  }

  /** The answers among the first j entries of chain i, the ones in the pool or the others. */
  ghost function InChainUpTo(s: State, q: Question, inside: bool, i: nat, j: nat): (hits: seq<Id>)
    requires AllWalkable(s) && i < |s.table| && j <= |s.table[i]|
  {
    if j == 0 then []
    else
      var (c, hits) := (s.table[i][j - 1], InChainUpTo(s, q, inside, i, j - 1));
      if Answer(s, q, i, j - 1) && (c in s.pool <==> inside) then hits + [c] else hits
  }

  /** The answers in the first i chains, in full. */
  ghost function InChains(s: State, q: Question, inside: bool, i: nat): (hits: seq<Id>)
    requires AllWalkable(s) && i <= |s.table|
  {
    if i == 0 then [] else InChains(s, q, inside, i - 1) + InChainUpTo(s, q, inside, i - 1, |s.table[i - 1]|)
  }

  ghost function HitsAt(s: State, q: Question, inside: bool, i: nat, j: nat): (hits: seq<Id>)
    requires AllWalkable(s) && i < |s.table| && j <= |s.table[i]|
  {
    InChains(s, q, inside, i) + InChainUpTo(s, q, inside, i, j)
  }

  lemma {:induction false} InChainMembers(s: State, q: Question, inside: bool, i: nat, j: nat)
    requires AllWalkable(s) && i < |s.table| && j <= |s.table[i]|
    ensures forall x :: x in InChainUpTo(s, q, inside, i, j) <==>
              exists k :: 0 <= k < j && s.table[i][k] == x && Answer(s, q, i, k) && (x in s.pool <==> inside)
    ensures NoDup(InChainUpTo(s, q, inside, i, j))
    decreases j
  {
    assert Walkable(s, i);
    if j > 0 {
      InChainMembers(s, q, inside, i, j - 1);
    }
  }

  /** Entries behind the reverse ones never answer. */
  lemma {:induction false} RestIsSilent(s: State, q: Question, inside: bool, i: nat, j: nat, n: nat)
    requires AllWalkable(s) && i < |s.table| && j <= n <= |s.table[i]|
    requires forall k :: j <= k < n ==> s.table[i][k] in s.rec && Reverse !in s.rec[s.table[i][k]].flags
    ensures InChainUpTo(s, q, inside, i, n) == InChainUpTo(s, q, inside, i, j)
    decreases n
  {
    if j < n {
      RestIsSilent(s, q, inside, i, j, n - 1);
    }
  }

  /** Leaving a chain at its first entry that is not reverse finds what a full search finds. */
  lemma ChainDone(s: State, q: Question, inside: bool, i: nat, j: nat)
    requires ChainsOk(s) && AllWalkable(s) && i < |s.table| && j <= |s.table[i]|
    requires j < |s.table[i]| ==> s.table[i][j] in s.rec && Reverse !in s.rec[s.table[i][j]].flags
    ensures HitsAt(s, q, inside, i, j) == InChains(s, q, inside, i + 1)
  {
    assert ChainOk(s.rec, s.table[i], i, s.hash, |s.table|);
    EarlyExit(s.rec, s.table[i], i, s.hash, |s.table|, ForAddress(q.now), j);
    RestIsSilent(s, q, inside, i, j, |s.table[i]|);
  }

  /** The answers are the entries of all chains that answer, each once. */
  lemma {:induction false} InChainsMembers(s: State, q: Question, inside: bool, i: nat)
    requires Inv(s) && AllWalkable(s) && i <= |s.table|
    ensures forall x :: x in InChains(s, q, inside, i) <==>
              exists b, k :: 0 <= b < i && 0 <= k < |s.table[b]| && s.table[b][k] == x && Answer(s, q, b, k)
                && (x in s.pool <==> inside)
    ensures NoDup(InChains(s, q, inside, i))
    decreases i
  {
    if i > 0 {
      InChainsMembers(s, q, inside, i - 1);
      InChainMembers(s, q, inside, i - 1, |s.table[i - 1]|);
      var before, here := InChains(s, q, inside, i - 1), InChainUpTo(s, q, inside, i - 1, |s.table[i - 1]|);
      forall x | x in here
        ensures x !in before
      {
        OtherChains(s, i - 1, x);
      }
      NoDupConcat(before, here);
    }
  }

  /** What iterating over the search returns. */
  ghost function AddrAnswers(s: State, q: Question): (a: seq<Id>)
    requires AllWalkable(s)
  {
    InChains(s, q, false, |s.table|) + Reversed(InChains(s, q, true, |s.table|))
  }

  /** Each answer once, and exactly the unexpired reverse records of the address and protocol
      anywhere in the table, although every chain is left at its first forward entry. */
  lemma AddrAnswersExact(s: State, q: Question)
    requires Inv(s) && AllWalkable(s)
    ensures NoDup(AddrAnswers(s, q))
    ensures forall x :: x in AddrAnswers(s, q) <==>
              exists b, k :: 0 <= b < |s.table| && 0 <= k < |s.table[b]| && s.table[b][k] == x && Answer(s, q, b, k)
  {
    InChainsMembers(s, q, false, |s.table|);
    InChainsMembers(s, q, true, |s.table|);
    ReversedMembers(InChains(s, q, true, |s.table|));
    NoDupConcat(InChains(s, q, false, |s.table|), Reversed(InChains(s, q, true, |s.table|)));
  }

  // ---------- After the walk ----------

  lemma {:induction false} KeepSource(rec: map<Id, Rec>, t: Scan, xs: seq<Id>, x: Id)
    requires (forall i :: 0 <= i < |xs| ==> xs[i] in rec) && x in Keep(rec, t, xs)
    ensures exists k :: 0 <= k < |xs| && xs[k] == x && !Removes(rec[x], t)
    decreases |xs|
  {
    var rest := Keep(rec, t, xs[..|xs| - 1]);
    if x in rest {
      KeepSource(rec, t, xs[..|xs| - 1], x);
    }
  }

  ghost predicate AddrWalked(s0: State, s: State, q: Question)
    requires AllWalkable(s0)
  {
    Pruned(s0, s, ForAddress(q.now), |s0.table|, 0) && Youngest(s.lru, InChains(s0, q, true, |s0.table|))
  }

  lemma AnswerStays(s0: State, s: State, q: Question, b: nat, k: nat)
    requires Inv(s0) && AllWalkable(s0) && AddrWalked(s0, s, q) && b < |s0.table| && k < |s0.table[b]|
      && Answer(s0, q, b, k)
    ensures s0.table[b][k] in s.rec && s.rec[s0.table[b][k]] == s0.rec[s0.table[b][k]]
  {
    assert Walkable(s0, b);
    var t, chain := ForAddress(q.now), s0.table[b];
    KeepHas(s0.rec, t, chain, k);
    assert chain[..|chain|] == chain;
    assert chain[k] in s.table[b];
  }

  lemma {:induction false} KeepHas(rec: map<Id, Rec>, t: Scan, xs: seq<Id>, k: nat)
    requires (forall i :: 0 <= i < |xs| ==> xs[i] in rec) && k < |xs| && !Removes(rec[xs[k]], t)
    ensures xs[k] in Keep(rec, t, xs)
    decreases |xs|
  {
    if k < |xs| - 1 {
      KeepHas(rec, t, xs[..|xs| - 1], k);
    }
  }

  /** A record of the list that is a hit after the walk is one of the answers. */
  lemma AddrHitsOfList(s0: State, s: State, q: Question, id: Id)
    requires Inv(s0) && Inv(s) && AllWalkable(s0) && AddrWalked(s0, s, q) && id in s.lru
    ensures id in s.rec
    ensures AddrHit(s.rec[id], q) ==> id in InChains(s0, q, true, |s0.table|)
  {
    InvMeans(s);
    if AddrHit(s.rec[id], q) {
      var b := BucketOf(s.hash, |s.table|, s.rec[id].name);
      assert id in s.table[b];
      assert Walkable(s0, b);
      var chain, t := s0.table[b], ForAddress(q.now);
      assert chain[..|chain|] == chain;
      KeepSource(s0.rec, t, chain, id);
      var k :| 0 <= k < |chain| && chain[k] == id && !Removes(s0.rec[id], t);
      assert Answer(s0, q, b, k);
      InChainsMembers(s0, q, true, |s0.table|);
    }
  }

  /** The test both branches of cache_find_by_addr end with. */
  function AddrChecked(rec: map<Id, Rec>, ans: Option<Id>, q: Question): Option<Id> {
    if ans.Some? && ans.value in rec && AddrHit(rec[ans.value], q) then ans else None
  }

  ghost predicate AddrContinuesAt(s: State, next: map<Id, Option<Id>>, q: Question, a: seq<Id>, k: nat)
    requires k < |a|
  {
    AddrChecked(s.rec, NextOf(s.lru, next, a[k]), q) == At(a, k + 1)
  }

  ghost predicate AddrContinues(s: State, next: map<Id, Option<Id>>, q: Question, a: seq<Id>) {
    forall k: nat :: k < |a| ==> AddrContinuesAt(s, next, q, a, k)
  }

  lemma AddrAnswerIsHit(s0: State, s: State, q: Question, k: nat)
    requires Inv(s0) && AllWalkable(s0) && AddrWalked(s0, s, q) && k < |AddrAnswers(s0, q)|
    ensures var x := AddrAnswers(s0, q)[k]; x in s.rec && AddrHit(s.rec[x], q)
  {
    AddrAnswersExact(s0, q);
    var x := AddrAnswers(s0, q)[k];
    assert x in AddrAnswers(s0, q);
    var b, i :| 0 <= b < |s0.table| && 0 <= i < |s0.table[b]| && s0.table[b][i] == x && Answer(s0, q, b, i);
    AnswerStays(s0, s, q, b, i);
  }

  lemma AddrGivenNotInList(s0: State, s: State, q: Question)
    requires Inv(s0) && Inv(s) && AllWalkable(s0) && s.pool == s0.pool
    ensures forall x :: x in InChains(s0, q, false, |s0.table|) ==> x !in s.lru
    ensures NoDup(s.lru)
  {
    InvMeans(s);
    InChainsMembers(s0, q, false, |s0.table|);
  }

  lemma AddrPointer(s0: State, s: State, next: map<Id, Option<Id>>, q: Question, ans: Option<Id>, k: nat)
    requires Inv(s0) && Inv(s) && AllWalkable(s0) && AddrWalked(s0, s, q) && k <= |AddrAnswers(s0, q)|
    requires NextLinks(next, InChains(s0, q, false, |s0.table|), Head(s.lru), ans)
    ensures var a := AddrAnswers(s0, q);
            (Pointer(s, next, a, ans, k)
            == if k < |a| then Some(a[k]) else Behind(s.lru, |InChains(s0, q, true, |s0.table|)|))
  {
    var g, found := InChains(s0, q, false, |s0.table|), InChains(s0, q, true, |s0.table|);
    var young := Reversed(found);
    assert young == s.lru[..|young|];
    AddrGivenNotInList(s0, s, q);
    if k > 0 {
      LinksFollow(s.lru, next, g, young, ans, k - 1);
    } else if g == [] && young != [] {
      assert (g + young)[0] == s.lru[0];
    }
  }

  lemma AddrIteration(s0: State, s: State, next: map<Id, Option<Id>>, q: Question, ans: Option<Id>, k: nat)
    requires Inv(s0) && Inv(s) && AllWalkable(s0) && AddrWalked(s0, s, q) && k <= |AddrAnswers(s0, q)|
    requires NextLinks(next, InChains(s0, q, false, |s0.table|), Head(s.lru), ans)
    ensures var a := AddrAnswers(s0, q);
            AddrChecked(s.rec, Pointer(s, next, a, ans, k), q) == At(a, k)
  {
    AddrPointer(s0, s, next, q, ans, k);
    if k < |AddrAnswers(s0, q)| {
      AddrAnswerIsHit(s0, s, q, k);
    } else {
      var found := InChains(s0, q, true, |s0.table|);
      if |found| < |s.lru| {
        AddrGivenNotInList(s0, s, q);
        NotFoundBehind(s.lru, found);
        AddrHitsOfList(s0, s, q, s.lru[|found|]);
      }
    }
  }

  /** The search returns the first answer and each continuation the next one. */
  lemma {:induction false} AddrIterationAll(s0: State, s: State, next: map<Id, Option<Id>>, q: Question,
                                            ans: Option<Id>)
    requires Inv(s0) && Inv(s) && AllWalkable(s0) && AddrWalked(s0, s, q)
    requires NextLinks(next, InChains(s0, q, false, |s0.table|), Head(s.lru), ans)
    ensures AddrChecked(s.rec, ans, q) == At(AddrAnswers(s0, q), 0)
    ensures AddrContinues(s, next, q, AddrAnswers(s0, q))
  {
    var a := AddrAnswers(s0, q);
    AddrIteration(s0, s, next, q, ans, 0);
    forall k: nat | k < |a|
      ensures AddrContinuesAt(s, next, q, a, k)
    {
      AddrIteration(s0, s, next, q, ans, k + 1);
    }
  }

  // ---------- One pass of the inner loop ----------

  lemma HitsAtFresh(s: State, q: Question, inside: bool, i: nat, j: nat)
    requires Inv(s) && AllWalkable(s) && i < |s.table| && j <= |s.table[i]|
    ensures NoDup(HitsAt(s, q, inside, i, j))
    ensures j < |s.table[i]| ==> s.table[i][j] !in HitsAt(s, q, inside, i, j)
  {
    assert Walkable(s, i);
    InChainsMembers(s, q, inside, i);
    InChainMembers(s, q, inside, i, j);
    var before, here := InChains(s, q, inside, i), InChainUpTo(s, q, inside, i, j);
    forall x | x in here
      ensures x !in before
    {
      OtherChains(s, i, x);
    }
    NoDupConcat(before, here);
    if j < |s.table[i]| {
      OtherChains(s, i, s.table[i][j]);
    }
  }

  lemma HitsAtNext(s: State, q: Question, inside: bool, i: nat, j: nat)
    requires AllWalkable(s) && i < |s.table| && j < |s.table[i]|
    ensures var (c, hits) := (s.table[i][j], HitsAt(s, q, inside, i, j));
            HitsAt(s, q, inside, i, j + 1) == if Answer(s, q, i, j) && (c in s.pool <==> inside) then hits + [c]
              else hits
  {
  }

  /** The state of the search at entry j of chain i. */
  ghost predicate AddrWalking(s0: State, s: State, q: Question, i: nat, j: nat)
    requires AllWalkable(s0) && i < |s0.table| && j <= |s0.table[i]|
  {
    Pruned(s0, s, ForAddress(q.now), i, j) && Youngest(s.lru, HitsAt(s0, q, true, i, j))
  }

  /** The inner loop body on the entry at up. */
  ghost function AddrVisited(s: State, i: nat, q: Question, up: nat): State
    requires Visitable(s, i, up)
  {
    var c := s.table[i][up];
    if Expired(s.rec[c], q.now) then Dropped(s, i, up)
    else if AddrHit(s.rec[c], q) then Collected(s, c)
    else s
  }

  lemma PrunedPromote(s0: State, s: State, t: Scan, i: nat, j: nat, c: Id)
    requires AllWalkable(s0) && i < |s0.table| && j <= |s0.table[i]| && Pruned(s0, s, t, i, j) && c in s.lru
    ensures Pruned(s0, Promoted(s, c), t, i, j)
  {
  }

  lemma AddrDead(s0: State, s: State, q: Question, i: nat, j: nat)
    requires Inv(s0) && Inv(s) && AllWalkable(s0) && i < |s0.table| && j < |s0.table[i]| && AddrWalking(s0, s, q, i, j)
    requires s0.table[i][j] in s0.rec && Reverse in s0.rec[s0.table[i][j]].flags
      && Expired(s0.rec[s0.table[i][j]], q.now)
    requires Visitable(s, i, Cut(s0, ForAddress(q.now), i, j))
    requires s.table[i][Cut(s0, ForAddress(q.now), i, j)] == s0.table[i][j]
    ensures AddrWalking(s0, Dropped(s, i, Cut(s0, ForAddress(q.now), i, j)), q, i, j + 1)
    ensures Cut(s0, ForAddress(q.now), i, j + 1) == Cut(s0, ForAddress(q.now), i, j)
  {
    PruneDrop(s0, s, ForAddress(q.now), i, j);
    HitsAtNext(s0, q, true, i, j);
    HitsAtFresh(s0, q, true, i, j);
    if s0.table[i][j] in s.pool {
      PrefixFree(s.lru, HitsAt(s0, q, true, i, j), s0.table[i][j]);
    }
  }

  lemma AddrAlive(s0: State, s: State, q: Question, i: nat, j: nat)
    requires Inv(s0) && AllWalkable(s0) && i < |s0.table| && j < |s0.table[i]| && AddrWalking(s0, s, q, i, j)
    requires s0.table[i][j] in s0.rec && !Expired(s0.rec[s0.table[i][j]], q.now)
    requires Visitable(s, i, Cut(s0, ForAddress(q.now), i, j)) && s.rec[s0.table[i][j]] == s0.rec[s0.table[i][j]]
    requires s.table[i][Cut(s0, ForAddress(q.now), i, j)] == s0.table[i][j]
    ensures AddrWalking(s0, AddrVisited(s, i, q, Cut(s0, ForAddress(q.now), i, j)), q, i, j + 1)
    ensures Cut(s0, ForAddress(q.now), i, j + 1) == Cut(s0, ForAddress(q.now), i, j) + 1
  {
    var c := s0.table[i][j];
    HitsAtNext(s0, q, true, i, j);
    if AddrHit(s.rec[c], q) && !Given(s.rec[c]) {
      HitsAtFresh(s0, q, true, i, j);
      PrefixPromote(s.lru, HitsAt(s0, q, true, i, j), c);
      PrunedPromote(s0, s, ForAddress(q.now), i, j, c);
      PruneKeep(s0, Promoted(s, c), ForAddress(q.now), i, j);
    } else {
      PruneKeep(s0, s, ForAddress(q.now), i, j);
    }
  }

  /** One pass of the inner loop, with everything its invariant needs. */
  lemma {:induction false} AddrPassOk(s0: State, s: State, q: Question, i: nat, j: nat)
    requires Inv(s0) && Inv(s) && AllWalkable(s0) && i < |s0.table| && j < |s0.table[i]| && AddrWalking(s0, s, q, i, j)
    requires s0.table[i][j] in s0.rec && Reverse in s0.rec[s0.table[i][j]].flags
    ensures var (t, c) := (ForAddress(q.now), s0.table[i][j]);
            && Visitable(s, i, Cut(s0, t, i, j)) && s.table[i][Cut(s0, t, i, j)] == c && s.rec[c] == s0.rec[c]
            && Inv(AddrVisited(s, i, q, Cut(s0, t, i, j)))
            && AddrWalking(s0, AddrVisited(s, i, q, Cut(s0, t, i, j)), q, i, j + 1)
            && Cut(s0, t, i, j + 1) == Cut(s0, t, i, j) + (if Expired(s.rec[c], q.now) then 0 else 1)
  {
    var t, c := ForAddress(q.now), s0.table[i][j];
    PruneAt(s0, s, t, i, j);
    if Expired(s.rec[c], q.now) {
      AddrDead(s0, s, q, i, j);
      DroppedInv(s, i, Cut(s0, t, i, j));
    } else {
      AddrAlive(s0, s, q, i, j);
      if AddrHit(s.rec[c], q) && !Given(s.rec[c]) {
        PromotedInv(s, c);
      }
    }
  }

  lemma AddrEnd(s0: State, s: State, q: Question, i: nat, j: nat)
    requires AllWalkable(s0) && i < |s0.table| && j <= |s0.table[i]| && AddrWalking(s0, s, q, i, j)
    ensures i < |s.table| && (Cut(s0, ForAddress(q.now), i, j) < |s.table[i]| <==> j < |s0.table[i]|)
    ensures j < |s0.table[i]| ==> s.table[i][Cut(s0, ForAddress(q.now), i, j)] == s0.table[i][j]
  {
  }
}
