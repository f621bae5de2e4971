module DnsCache {
  // The dnsmasq record cache: a hash table whose chains are kept in the order reverse, mortal,
  // immortal; a list of the pool records in order of last use, whose free records come last; and
  // the chain of records inserted but not yet committed. Records read from hosts files or DHCP
  // leases hang in the hash chains only.
  //
  // A list of records linked by pointers is a sequence of record ids here.

  import opened Common

  type Id = nat

  datatype Flag =
    | Immortal | NameP | Reverse | Forward | Dhcp | Neg | Hosts | Ipv4 | Ipv6
    | BigName | NxDomain | Cname | DnsKey | Config | Ds | DnsSecOk

  datatype Rec = Rec(flags: set<Flag>, name: string, addr: seq<int>, ttd: int, uid: int,
                     target: Option<Id>, targetUid: int)

  // ---------- Tests on records ----------

  /** (a & b) != 0 on flag words. */
  predicate Meets(a: set<Flag>, b: set<Flag>) {
    a * b != {}
  }

  predicate Given(r: Rec) {
    Hosts in r.flags || Dhcp in r.flags
  }

  predicate InUse(r: Rec) {
    Forward in r.flags || Reverse in r.flags
  }

  /** is_expired. */
  predicate Expired(r: Rec, now: int) {
    Immortal !in r.flags && now >= r.ttd
  }

  /** is_outdated_cname_pointer. */
  predicate Outdated(rec: map<Id, Rec>, r: Rec) {
    Cname in r.flags &&
    !(r.target.Some? && r.target.value in rec
      && Meets(rec[r.target.value].flags, {Ipv4, Ipv6, Cname}) && r.targetUid == rec[r.target.value].uid)
  }

  function Lower(s: string): (t: string)
    ensures |t| == |s|
  {
    seq(|s|, i requires 0 <= i < |s| =>
      if 'A' <= s[i] <= 'Z' then ((s[i] as int) + 32) as char else s[i])
  }

  /** hostname_isequal. */
  predicate SameName(a: string, b: string) {
    Lower(a) == Lower(b)
  }

  /** memcmp over the first 16 bytes of an IPv6 address and the first 4 of any other. */
  predicate SameAddr(a: seq<int>, b: seq<int>, ipv6: bool) {
    var n := if ipv6 then 16 else 4;
    |a| >= n && |b| >= n && a[..n] == b[..n]
  }

  /** The place of a record in its chain: reverse, then mortal, then immortal. */
  function Rank(r: Rec): nat {
    if Reverse in r.flags then 0 else if Immortal in r.flags then 2 else 1
  }

  /** cache_free on the record itself: it is out of use, and any alias that points to it is
      now outdated. */
  function Freed(r: Rec, uid: int): Rec {
    r.(flags := r.flags - {Forward, Reverse, BigName}, uid := uid)
  }

  // ---------- Sequences without repetition ----------

  predicate NoDup(s: seq<Id>) {
    forall i, j :: 0 <= i < j < |s| ==> s[i] != s[j]
  }

  function IndexOf(s: seq<Id>, x: Id): (k: nat)
    requires x in s
    ensures k < |s| && s[k] == x
  {
    IndexFrom(s, x, 0)
  }

  function IndexFrom(s: seq<Id>, x: Id, i: nat): (k: nat)
    requires exists j :: i <= j < |s| && s[j] == x
    ensures i <= k < |s| && s[k] == x
    decreases |s| - i
  {
    if s[i] == x then i else IndexFrom(s, x, i + 1)
  }

  function RemoveAt(s: seq<Id>, i: nat): (r: seq<Id>)
    requires i < |s|
    ensures |r| == |s| - 1
    ensures NoDup(s) ==> NoDup(r) && forall x :: x in r <==> x in s && x != s[i]
  {
    var r := s[..i] + s[i + 1..];
    assert forall x :: x in s <==> x in r || x == s[i] by {
      assert s == s[..i] + [s[i]] + s[i + 1..];
    }
    r
  }

  /** Unlinking x from a doubly linked list. */
  function Without(s: seq<Id>, x: Id): (r: seq<Id>)
    requires x in s
    ensures |r| == |s| - 1
    ensures NoDup(s) ==> NoDup(r) && forall y :: y in r <==> y in s && y != x
  {
    RemoveAt(s, IndexOf(s, x))
  }

  // ---------- The invariant ----------

  /** The static variables of cache.c. */
  datatype State = State(
    pool: set<Id>,             // the records allocated by cache_init
    hash: string -> nat,       // the hash of a lower-cased name
    rec: map<Id, Rec>,         // every record, of the pool or given
    lru: seq<Id>,              // from cache_head to cache_tail
    pending: seq<Id>,          // new_chain
    table: seq<seq<Id>>,       // hash_table, chain by chain
    uid: int)

  function BucketOf(hash: string -> nat, size: nat, name: string): (b: nat)
    requires size > 0
    ensures b < size
  {
    hash(Lower(name)) % size
  }

  /** The pool is the list of used and free records plus the uncommitted chain, each once. */
  ghost predicate Partition(s: State) {
    && NoDup(s.lru) && NoDup(s.pending)
    && (forall id :: id in s.lru ==> id !in s.pending)
    && (forall id :: id in s.pool <==> id in s.lru || id in s.pending)
  }

  ghost predicate RecordsOk(s: State) {
    && (forall id :: id in s.pool ==> id in s.rec)
    && (forall id :: id in s.rec ==> (id in s.pool <==> !Given(s.rec[id])))
    && (forall id :: id in s.pending ==> id in s.rec && InUse(s.rec[id]))
    && (forall id :: id in s.pool && id in s.rec ==> s.rec[id].uid < s.uid)
    && (forall id :: id in s.rec && s.rec[id].target.Some? && s.rec[id].target.value in s.pool
          ==> s.rec[id].targetUid < s.uid)
  }

  /** No used record of the list comes after a free one. */
  ghost predicate UsedFirst(rec: map<Id, Rec>, lru: seq<Id>) {
    && (forall i :: 0 <= i < |lru| ==> lru[i] in rec)
    && (forall i, j :: 0 <= i < j < |lru| && InUse(rec[lru[j]]) ==> InUse(rec[lru[i]]))
  }

  /** The chain of bucket b: no repetition, only names that hash to b, in the order of Rank. */
  ghost predicate ChainOk(rec: map<Id, Rec>, chain: seq<Id>, b: nat, hash: string -> nat, size: nat)
    requires size > 0
  {
    && NoDup(chain)
    && (forall i :: 0 <= i < |chain| ==> chain[i] in rec && BucketOf(hash, size, rec[chain[i]].name) == b)
    && (forall i, j :: 0 <= i < j < |chain| ==> Rank(rec[chain[i]]) <= Rank(rec[chain[j]]))
  }

  ghost predicate ChainsOk(s: State) {
    |s.table| > 0 && forall b :: 0 <= b < |s.table| ==> ChainOk(s.rec, s.table[b], b, s.hash, |s.table|)
  }

  /** A pool record is in a chain exactly when it is in the list and in use. */
  ghost predicate HashedWhenUsed(s: State)
    requires |s.table| > 0
  {
    && (forall b, id :: 0 <= b < |s.table| && id in s.table[b] && id in s.pool ==>
          id in s.lru && id in s.rec && InUse(s.rec[id]))
    && (forall id :: id in s.lru && id in s.rec && InUse(s.rec[id]) ==>
          id in s.table[BucketOf(s.hash, |s.table|, s.rec[id].name)])
  }

  /** The cache invariant. It is stated under a quantifier whose trigger no other term matches,
      so that proofs handle it as a name and call InvMeans where they need what it says. */
  ghost predicate Inv(s: State) {
    |s.table| > 0 && forall u: bool {:trigger Open(s, u)} :: Open(s, u) ==>
      Partition(s) && RecordsOk(s) && UsedFirst(s.rec, s.lru) && ChainsOk(s) && HashedWhenUsed(s)
  }

  ghost predicate Open(s: State, u: bool) {
    true
  }

  lemma InvMeans(s: State)
    requires Inv(s)
    ensures Partition(s) && RecordsOk(s) && UsedFirst(s.rec, s.lru) && ChainsOk(s) && HashedWhenUsed(s)
  {
    assert Open(s, true);
  }

  // ---------- Single changes and what they keep ----------

  /** Taking entry i out of chain b. A pool record also goes, out of use, to the end of the
      list. */
  function Dropped(s: State, b: nat, i: nat): State
    requires b < |s.table| && i < |s.table[b]|
    requires s.table[b][i] in s.pool ==> s.table[b][i] in s.lru && s.table[b][i] in s.rec
  {
    var id := s.table[b][i];
    var s' := s.(table := s.table[b := RemoveAt(s.table[b], i)]);
    if id in s.pool then
      s'.(rec := s.rec[id := Freed(s.rec[id], s.uid)], lru := Without(s.lru, id) + [id], uid := s.uid + 1)
    else s'
  }

  lemma InChain(s: State, b: nat, i: nat)
    requires Inv(s) && b < |s.table| && i < |s.table[b]|
    ensures s.table[b][i] in s.rec
    ensures s.table[b][i] in s.pool ==> s.table[b][i] in s.lru && InUse(s.rec[s.table[b][i]])
    ensures s.table[b][i] in s.pool <==> !Given(s.rec[s.table[b][i]])
  {
    InvMeans(s);
    assert ChainOk(s.rec, s.table[b], b, s.hash, |s.table|);
    assert s.table[b][i] in s.table[b];
  }

  lemma DroppedChains(s: State, b: nat, i: nat)
    requires ChainsOk(s) && b < |s.table| && i < |s.table[b]|
    requires s.table[b][i] in s.pool ==> s.table[b][i] in s.lru && s.table[b][i] in s.rec
    ensures ChainsOk(Dropped(s, b, i))
  {
    var id, s' := s.table[b][i], Dropped(s, b, i);
    assert ChainOk(s.rec, s.table[b], b, s.hash, |s.table|);
    forall c | 0 <= c < |s'.table|
      ensures ChainOk(s'.rec, s'.table[c], c, s.hash, |s'.table|)
    {
      assert ChainOk(s.rec, s.table[c], c, s.hash, |s.table|);
      if c == b {
        RemoveChain(s.rec, s.table[b], b, s.hash, |s.table|, i);
      }
      assert id !in s'.table[c];
      ChainFrame(s.rec, s'.table[c], c, s.hash, |s.table|, id, s'.rec);
    }
  }

  lemma RemoveChain(rec: map<Id, Rec>, chain: seq<Id>, b: nat, hash: string -> nat, size: nat, i: nat)
    requires size > 0 && i < |chain| && ChainOk(rec, chain, b, hash, size)
    ensures ChainOk(rec, RemoveAt(chain, i), b, hash, size) && chain[i] !in RemoveAt(chain, i)
  {
    var r := RemoveAt(chain, i);
    assert forall k :: 0 <= k < |r| ==> r[k] == chain[if k < i then k else k + 1];
  }

  /** A record that is not in the chain does not matter to it. */
  lemma ChainFrame(rec: map<Id, Rec>, chain: seq<Id>, b: nat, hash: string -> nat, size: nat, id: Id,
                   rec': map<Id, Rec>)
    requires size > 0 && ChainOk(rec, chain, b, hash, size) && id !in chain
    requires forall x :: x in rec && x != id ==> x in rec' && rec'[x] == rec[x]
    ensures ChainOk(rec', chain, b, hash, size)
  {
    assert forall k :: 0 <= k < |chain| ==> chain[k] in chain;
  }

  lemma UsedFirstTail(rec: map<Id, Rec>, lru: seq<Id>, id: Id, r: Rec)
    requires UsedFirst(rec, lru) && NoDup(lru) && id in lru && !InUse(r)
    ensures UsedFirst(rec[id := r], Without(lru, id) + [id])
  {
    var k := IndexOf(lru, id);
    var lru' := Without(lru, id) + [id];
    assert forall p :: 0 <= p < |lru'| ==>
      lru'[p] == if p < k then lru[p] else if p < |lru| - 1 then lru[p + 1] else id;
  }

  lemma {:induction false} DroppedHashed(s: State, b: nat, i: nat)
    requires Inv(s) && b < |s.table| && i < |s.table[b]|
    requires s.table[b][i] in s.pool ==> s.table[b][i] in s.lru && s.table[b][i] in s.rec
    ensures HashedWhenUsed(Dropped(s, b, i))
  {
    InvMeans(s);
    var id, s' := s.table[b][i], Dropped(s, b, i);
    assert ChainOk(s.rec, s.table[b], b, s.hash, |s.table|);
    assert forall x :: x in s'.table[b] <==> x in s.table[b] && x != id;
    assert forall c :: 0 <= c < |s.table| && c != b ==> s'.table[c] == s.table[c];
    forall c | 0 <= c < |s.table| && c != b
      ensures id !in s.table[c]
    {
      assert ChainOk(s.rec, s.table[c], c, s.hash, |s.table|);
    }
  }

  lemma DroppedPartition(s: State, b: nat, i: nat)
    requires Partition(s) && RecordsOk(s) && b < |s.table| && i < |s.table[b]|
    requires s.table[b][i] in s.pool ==> s.table[b][i] in s.lru && s.table[b][i] in s.rec
    ensures Partition(Dropped(s, b, i)) && RecordsOk(Dropped(s, b, i))
  {
  }

  /** Dropping an entry keeps the invariant. */
  lemma DroppedInv(s: State, b: nat, i: nat)
    requires Inv(s) && b < |s.table| && i < |s.table[b]|
    requires s.table[b][i] in s.pool ==> s.table[b][i] in s.lru && s.table[b][i] in s.rec
    ensures Inv(Dropped(s, b, i))
  {
    InvMeans(s);
    DroppedChains(s, b, i);
    DroppedPartition(s, b, i);
    DroppedHashed(s, b, i);
    if s.table[b][i] in s.pool {
      UsedFirstTail(s.rec, s.lru, s.table[b][i], Freed(s.rec[s.table[b][i]], s.uid));
    }
  }

  /** cache_unlink and cache_link: the record becomes the youngest of the list. */
  function Promoted(s: State, id: Id): State
    requires id in s.lru
  {
    s.(lru := [id] + Without(s.lru, id))
  }

  lemma UsedFirstHead(rec: map<Id, Rec>, lru: seq<Id>, id: Id)
    requires UsedFirst(rec, lru) && NoDup(lru) && id in lru && InUse(rec[id])
    ensures UsedFirst(rec, [id] + Without(lru, id))
  {
    var k := IndexOf(lru, id);
    var lru' := [id] + Without(lru, id);
    assert forall p :: 0 <= p < |lru'| ==> lru'[p] == if p == 0 then id else if p <= k then lru[p - 1] else lru[p];
  }

  lemma PromotedInv(s: State, id: Id)
    requires Inv(s) && id in s.lru && id in s.rec && InUse(s.rec[id])
    ensures Inv(Promoted(s, id))
  {
    InvMeans(s);
    UsedFirstHead(s.rec, s.lru, id);
  }

  function MoveUp(chain: seq<Id>, i: nat, j: nat): (r: seq<Id>)
    requires j <= i < |chain|
    ensures |r| == |chain|
    ensures forall p :: 0 <= p < |r| ==>
      r[p] == if p < j || p > i then chain[p] else if p == j then chain[i] else chain[p - 1]
  {
    chain[..j] + [chain[i]] + chain[j..i] + chain[i + 1..]
  }

  /** Entry i of chain b moved up to position j. */
  function Moved(s: State, b: nat, i: nat, j: nat): State
    requires b < |s.table| && j <= i < |s.table[b]|
  {
    s.(table := s.table[b := MoveUp(s.table[b], i, j)])
  }

  lemma MoveUpSame(chain: seq<Id>, i: nat, j: nat)
    requires j <= i < |chain|
    ensures forall x :: x in MoveUp(chain, i, j) <==> x in chain
  {
    var r := MoveUp(chain, i, j);
    forall x | x in chain
      ensures x in r
    {
      var p :| 0 <= p < |chain| && chain[p] == x;
      assert r[if p < j || p > i then p else if p == i then j else p + 1] == x;
    }
  }

  lemma MoveUpNoDup(chain: seq<Id>, i: nat, j: nat)
    requires j <= i < |chain| && NoDup(chain)
    ensures NoDup(MoveUp(chain, i, j))
  {
  }

  lemma {:induction false} MoveUpChain(rec: map<Id, Rec>, chain: seq<Id>, b: nat, hash: string -> nat, size: nat,
                                       i: nat, j: nat)
    requires size > 0 && ChainOk(rec, chain, b, hash, size) && j <= i < |chain|
    requires Rank(rec[chain[i]]) == Rank(rec[chain[j]])
    ensures ChainOk(rec, MoveUp(chain, i, j), b, hash, size)
  {
    MoveUpNoDup(chain, i, j);
    var r := MoveUp(chain, i, j);
    forall p | 0 <= p < |r|
      ensures r[p] in rec && BucketOf(hash, size, rec[r[p]].name) == b
    {
      assert r[p] == chain[Origin(i, j, p)];
    }
    forall p, q | 0 <= p < q < |r|
      ensures Rank(rec[r[p]]) <= Rank(rec[r[q]])
    {
      var (p', q') := (Origin(i, j, p), Origin(i, j, q));
      assert r[p] == chain[p'] && r[q] == chain[q'];
      if p' < q' {
        assert Rank(rec[chain[p']]) <= Rank(rec[chain[q']]);
      } else {
        assert p' == i && j <= q' < i;
        if j < q' {
          assert Rank(rec[chain[j]]) <= Rank(rec[chain[q']]);
        }
      }
    }
  }

  /** The position before the move of the entry at p after it. */
  function Origin(i: nat, j: nat, p: nat): nat {
    if p < j || p > i then p else if p == j then i else p - 1
  }

  /** Moving an entry up past entries of its own rank keeps the invariant. */
  lemma MovedInv(s: State, b: nat, i: nat, j: nat)
    requires Inv(s) && b < |s.table| && j <= i < |s.table[b]|
    requires s.table[b][i] in s.rec && s.table[b][j] in s.rec
    requires Rank(s.rec[s.table[b][i]]) == Rank(s.rec[s.table[b][j]])
    ensures Inv(Moved(s, b, i, j))
  {
    InvMeans(s);
    var s' := Moved(s, b, i, j);
    MoveUpChain(s.rec, s.table[b], b, s.hash, |s.table|, i, j);
    MoveUpSame(s.table[b], i, j);
    assert forall c, x :: 0 <= c < |s.table| ==> (x in s'.table[c] <==> x in s.table[c]);
  }

  /** Where cache_hash puts a record: before the first entry it must not overtake. */
  function HashPos(rec: map<Id, Rec>, chain: seq<Id>, r: Rec): (k: nat)
    requires forall i :: 0 <= i < |chain| ==> chain[i] in rec
    ensures k <= |chain|
    ensures forall i :: 0 <= i < k ==> Rank(rec[chain[i]]) < Rank(r)
    ensures k < |chain| ==> Rank(rec[chain[k]]) >= Rank(r)
  {
    HashPosFrom(rec, chain, r, 0)
  }

  function HashPosFrom(rec: map<Id, Rec>, chain: seq<Id>, r: Rec, i: nat): (k: nat)
    requires i <= |chain| && forall j :: 0 <= j < |chain| ==> chain[j] in rec
    ensures i <= k <= |chain|
    ensures forall j :: i <= j < k ==> Rank(rec[chain[j]]) < Rank(r)
    ensures k < |chain| ==> Rank(rec[chain[k]]) >= Rank(r)
    decreases |chain| - i
  {
    if i < |chain| && Rank(rec[chain[i]]) < Rank(r) then HashPosFrom(rec, chain, r, i + 1) else i
  }

  function InsertAt(chain: seq<Id>, k: nat, id: Id): (r: seq<Id>)
    requires k <= |chain|
    ensures |r| == |chain| + 1
    ensures forall p :: 0 <= p < |r| ==> r[p] == if p < k then chain[p] else if p == k then id else chain[p - 1]
    ensures forall x :: x in r <==> x == id || x in chain
  {
    var r := chain[..k] + [id] + chain[k..];
    assert chain == chain[..k] + chain[k..];
    r
  }

  /** The record id, hashed under its name. */
  function HashedIn(s: State, id: Id): State
    requires id in s.rec && |s.table| > 0
    requires forall b, i :: 0 <= b < |s.table| && 0 <= i < |s.table[b]| ==> s.table[b][i] in s.rec
  {
    var b := BucketOf(s.hash, |s.table|, s.rec[id].name);
    s.(table := s.table[b := InsertAt(s.table[b], HashPos(s.rec, s.table[b], s.rec[id]), id)])
  }

  lemma InsertNoDup(chain: seq<Id>, k: nat, id: Id)
    requires NoDup(chain) && k <= |chain| && id !in chain
    ensures NoDup(InsertAt(chain, k, id))
  {
  }

  lemma InsertOrdered(rec: map<Id, Rec>, chain: seq<Id>, b: nat, hash: string -> nat, size: nat, id: Id, k: nat)
    requires size > 0 && ChainOk(rec, chain, b, hash, size) && id in rec && id !in chain
    requires BucketOf(hash, size, rec[id].name) == b && k <= |chain|
    requires forall i :: 0 <= i < k ==> Rank(rec[chain[i]]) < Rank(rec[id])
    requires k < |chain| ==> Rank(rec[chain[k]]) >= Rank(rec[id])
    ensures ChainOk(rec, InsertAt(chain, k, id), b, hash, size)
  {
    var r := InsertAt(chain, k, id);
    InsertNoDup(chain, k, id);
    forall p, q | 0 <= p < q < |r|
      ensures r[p] in rec && r[q] in rec && Rank(rec[r[p]]) <= Rank(rec[r[q]])
    {
      if p != k && q != k {
        var (p', q') := (if p < k then p else p - 1, if q < k then q else q - 1);
        assert Rank(rec[chain[p']]) <= Rank(rec[chain[q']]);
      } else if p == k && q > k + 1 {
        assert Rank(rec[chain[k]]) <= Rank(rec[chain[q - 1]]);
      }
    }
  }

  /** The chain stays ordered although cache_hash skips by flags and stops early. */
  lemma InsertChain(rec: map<Id, Rec>, chain: seq<Id>, b: nat, hash: string -> nat, size: nat, id: Id)
    requires size > 0 && ChainOk(rec, chain, b, hash, size) && id in rec && id !in chain
    requires BucketOf(hash, size, rec[id].name) == b
    ensures ChainOk(rec, InsertAt(chain, HashPos(rec, chain, rec[id]), id), b, hash, size)
  {
    InsertOrdered(rec, chain, b, hash, size, id, HashPos(rec, chain, rec[id]));
  }

  lemma ChainsHaveRecords(s: State)
    requires ChainsOk(s)
    ensures forall b, i :: 0 <= b < |s.table| && 0 <= i < |s.table[b]| ==> s.table[b][i] in s.rec
  {
    forall b, i | 0 <= b < |s.table| && 0 <= i < |s.table[b]|
      ensures s.table[b][i] in s.rec
    {
      assert ChainOk(s.rec, s.table[b], b, s.hash, |s.table|);
    }
  }

  lemma HashedInChains(s: State, id: Id)
    requires ChainsOk(s) && id in s.rec
    requires forall b :: 0 <= b < |s.table| ==> id !in s.table[b]
    requires forall b, i :: 0 <= b < |s.table| && 0 <= i < |s.table[b]| ==> s.table[b][i] in s.rec
    ensures ChainsOk(HashedIn(s, id))
  {
    var b, s' := BucketOf(s.hash, |s.table|, s.rec[id].name), HashedIn(s, id);
    forall c | 0 <= c < |s'.table|
      ensures ChainOk(s'.rec, s'.table[c], c, s.hash, |s'.table|)
    {
      assert ChainOk(s.rec, s.table[c], c, s.hash, |s.table|);
      if c == b {
        InsertChain(s.rec, s.table[b], b, s.hash, |s.table|, id);
      }
    }
  }

  /** The contents of a record that hangs in no chain do not matter to the chains. */
  lemma ChainsFrame(s: State, id: Id, r: Rec)
    requires ChainsOk(s) && forall b :: 0 <= b < |s.table| ==> id !in s.table[b]
    ensures ChainsOk(s.(rec := s.rec[id := r]))
  {
    var s' := s.(rec := s.rec[id := r]);
    forall b | 0 <= b < |s'.table|
      ensures ChainOk(s'.rec, s'.table[b], b, s.hash, |s'.table|)
    {
      assert ChainOk(s.rec, s.table[b], b, s.hash, |s.table|);
      assert forall i :: 0 <= i < |s.table[b]| ==> s.table[b][i] in s.table[b];
    }
  }

  /** cache_end_insert on the first pending record: hashed, and youngest of the list. */
  function Committed(s: State): State
    requires s.pending != [] && s.pending[0] in s.rec && |s.table| > 0
    requires forall b, i :: 0 <= b < |s.table| && 0 <= i < |s.table[b]| ==> s.table[b][i] in s.rec
  {
    var id := s.pending[0];
    HashedIn(s, id).(pending := s.pending[1..], lru := [id] + s.lru)
  }

  /** cache_free on the first pending record: out of use, at the end of the list. */
  function Recovered(s: State): State
    requires s.pending != [] && s.pending[0] in s.rec
  {
    var id := s.pending[0];
    s.(pending := s.pending[1..], lru := s.lru + [id], rec := s.rec[id := Freed(s.rec[id], s.uid)], uid := s.uid + 1)
  }

  lemma NotHashed(s: State, id: Id)
    requires Inv(s) && id in s.pending
    ensures id in s.rec && id in s.pool && id !in s.lru
    ensures forall b :: 0 <= b < |s.table| ==> id !in s.table[b]
  {
    InvMeans(s);
  }

  lemma CommittedHashed(s: State)
    requires Inv(s) && s.pending != [] && s.pending[0] in s.rec
    requires forall b, i :: 0 <= b < |s.table| && 0 <= i < |s.table[b]| ==> s.table[b][i] in s.rec
    ensures HashedWhenUsed(Committed(s))
  {
    InvMeans(s);
    var s' := Committed(s);
    assert forall b, x :: 0 <= b < |s.table| && x in s.table[b] ==> x in s'.table[b];
    assert forall b, x :: 0 <= b < |s.table| && x in s'.table[b] ==> x == s.pending[0] || x in s.table[b];
  }

  lemma CommittedInv(s: State)
    requires Inv(s) && s.pending != [] && s.pending[0] in s.rec
    requires forall b, i :: 0 <= b < |s.table| && 0 <= i < |s.table[b]| ==> s.table[b][i] in s.rec
    ensures Inv(Committed(s))
  {
    InvMeans(s);
    NotHashed(s, s.pending[0]);
    HashedInChains(s, s.pending[0]);
    CommittedHashed(s);
    CommittedPartition(s);
  }

  lemma CommittedPartition(s: State)
    requires Inv(s) && s.pending != [] && s.pending[0] in s.rec
    requires forall b, i :: 0 <= b < |s.table| && 0 <= i < |s.table[b]| ==> s.table[b][i] in s.rec
    ensures Partition(Committed(s)) && RecordsOk(Committed(s)) && UsedFirst(Committed(s).rec, Committed(s).lru)
  {
    InvMeans(s);
    TailMembers(s.pending);
    assert s.pending[0] in s.pending;
  }

  lemma TailMembers(p: seq<Id>)
    requires p != []
    ensures forall x :: x in p <==> x == p[0] || x in p[1..]
    ensures NoDup(p) ==> NoDup(p[1..]) && p[0] !in p[1..]
  {
    assert p == [p[0]] + p[1..];
  }

  lemma RecoveredHashed(s: State)
    requires Inv(s) && s.pending != [] && s.pending[0] in s.rec
    ensures HashedWhenUsed(Recovered(s))
  {
    InvMeans(s);
    NotHashed(s, s.pending[0]);
  }

  lemma RecoveredInv(s: State)
    requires Inv(s) && s.pending != [] && s.pending[0] in s.rec
    ensures Inv(Recovered(s))
  {
    InvMeans(s);
    var id := s.pending[0];
    NotHashed(s, id);
    TailMembers(s.pending);
    ChainsFrame(s, id, Freed(s.rec[id], s.uid));
    RecoveredHashed(s);
    UsedFirstAppend(s.rec, s.lru, id, Freed(s.rec[id], s.uid));
  }

  lemma UsedFirstAppend(rec: map<Id, Rec>, lru: seq<Id>, id: Id, r: Rec)
    requires UsedFirst(rec, lru) && id !in lru && !InUse(r)
    ensures UsedFirst(rec[id := r], lru + [id])
  {
  }

  /** cache_insert once the record at the end of the list is free: it leaves the list and
      becomes the first pending record with the contents r. */
  function Taken(s: State, r: Rec): State
    requires s.lru != []
  {
    var id := s.lru[|s.lru| - 1];
    s.(lru := s.lru[..|s.lru| - 1], pending := [id] + s.pending, rec := s.rec[id := r])
  }

  lemma TakenHashed(s: State, r: Rec)
    requires Inv(s) && s.lru != [] && s.lru[|s.lru| - 1] in s.rec && !InUse(s.rec[s.lru[|s.lru| - 1]])
    ensures forall b :: 0 <= b < |s.table| ==> s.lru[|s.lru| - 1] !in s.table[b]
    ensures HashedWhenUsed(Taken(s, r))
  {
    InvMeans(s);
    FrontMembers(s.lru);
  }

  lemma FrontMembers(p: seq<Id>)
    requires p != []
    ensures forall x :: x in p <==> x == p[|p| - 1] || x in p[..|p| - 1]
    ensures NoDup(p) ==> NoDup(p[..|p| - 1]) && p[|p| - 1] !in p[..|p| - 1]
  {
    assert p == p[..|p| - 1] + [p[|p| - 1]];
  }

  lemma TakenPartition(s: State, r: Rec)
    requires Partition(s) && RecordsOk(s) && s.lru != []
    requires InUse(r) && !Given(r) && r.uid < s.uid
    requires r.target.Some? && r.target.value in s.pool ==> r.targetUid < s.uid
    ensures Partition(Taken(s, r)) && RecordsOk(Taken(s, r))
  {
    FrontMembers(s.lru);
    assert s.lru[|s.lru| - 1] in s.lru;
  }

  lemma UsedFirstFront(rec: map<Id, Rec>, lru: seq<Id>, r: Rec)
    requires UsedFirst(rec, lru) && NoDup(lru) && lru != []
    ensures UsedFirst(rec[lru[|lru| - 1] := r], lru[..|lru| - 1])
  {
  }

  lemma TakenInv(s: State, r: Rec)
    requires Inv(s) && s.lru != [] && s.lru[|s.lru| - 1] in s.rec && !InUse(s.rec[s.lru[|s.lru| - 1]])
    requires InUse(r) && !Given(r) && r.uid < s.uid
    requires r.target.Some? && r.target.value in s.pool ==> r.targetUid < s.uid
    ensures Inv(Taken(s, r))
  {
    InvMeans(s);
    TakenPartition(s, r);
    TakenHashed(s, r);
    ChainsFrame(s, s.lru[|s.lru| - 1], r);
    UsedFirstFront(s.rec, s.lru, r);
  }

  /** A record of a hosts file or a lease, hashed under its name. */
  function GivenIn(s: State, id: Id, r: Rec): State
    requires |s.table| > 0
    requires forall b, i :: 0 <= b < |s.table| && 0 <= i < |s.table[b]| ==> s.table[b][i] in s.rec
  {
    HashedIn(s.(rec := s.rec[id := r]), id)
  }

  /** A record outside the pool and the list, added to some chain. */
  ghost predicate AddsGiven(s: State, s': State, id: Id, r: Rec) {
    && s' == s.(rec := s.rec[id := r], table := s'.table) && |s'.table| == |s.table| > 0
    && (forall b, x :: 0 <= b < |s.table| && x in s'.table[b] ==> x == id || x in s.table[b])
    && (forall b, x :: 0 <= b < |s.table| && x in s.table[b] ==> x in s'.table[b])
  }

  lemma AddsGivenHashed(s: State, s': State, id: Id, r: Rec)
    requires AddsGiven(s, s', id, r) && HashedWhenUsed(s) && id !in s.pool && id !in s.lru
    ensures HashedWhenUsed(s')
  {
  }

  lemma AddsGivenPartition(s: State, s': State, id: Id, r: Rec)
    requires AddsGiven(s, s', id, r) && Partition(s) && RecordsOk(s) && UsedFirst(s.rec, s.lru)
    requires id !in s.rec && Given(r) && (r.target.Some? && r.target.value in s.pool ==> r.targetUid < s.uid)
    ensures Partition(s') && RecordsOk(s') && UsedFirst(s'.rec, s'.lru)
  {
  }

  lemma GivenInAdds(s: State, id: Id, r: Rec)
    requires |s.table| > 0
    requires forall b, i :: 0 <= b < |s.table| && 0 <= i < |s.table[b]| ==> s.table[b][i] in s.rec
    ensures AddsGiven(s, GivenIn(s, id, r), id, r)
  {
    var b := BucketOf(s.hash, |s.table|, r.name);
    AddsInserted(s, b, HashPos(s.rec[id := r], s.table[b], r), id, r);
  }

  lemma AddsInserted(s: State, b: nat, k: nat, id: Id, r: Rec)
    requires b < |s.table| && k <= |s.table[b]|
    ensures AddsGiven(s, s.(rec := s.rec[id := r], table := s.table[b := InsertAt(s.table[b], k, id)]), id, r)
  {
  }

  lemma GivenInInv(s: State, id: Id, r: Rec)
    requires Inv(s) && id !in s.rec && Given(r) && (r.target.Some? && r.target.value in s.pool ==> r.targetUid < s.uid)
    requires forall b, i :: 0 <= b < |s.table| && 0 <= i < |s.table[b]| ==> s.table[b][i] in s.rec
    ensures Inv(GivenIn(s, id, r))
  {
    InvMeans(s);
    ChainsFrame(s, id, r);
    HashedInChains(s.(rec := s.rec[id := r]), id);
    GivenInAdds(s, id, r);
    var s' := GivenIn(s, id, r);
    AddsGivenHashed(s, s', id, r);
    AddsGivenPartition(s, s', id, r);
  }

  /** A caller of cache_insert fills in where a pending alias points. */
  function Aimed(s: State, alias: Id, target: Id): State
    requires alias in s.rec && target in s.rec
  {
    s.(rec := s.rec[alias := s.rec[alias].(target := Some(target), targetUid := s.rec[target].uid)])
  }

  lemma AimedInv(s: State, alias: Id, target: Id)
    requires Inv(s) && alias in s.pending && alias in s.rec && target in s.pool && target in s.rec
    ensures Inv(Aimed(s, alias, target))
  {
    InvMeans(s);
    NotHashed(s, alias);
    ChainsFrame(s, alias, Aimed(s, alias, target).rec[alias]);
  }

  /** A caller of cache_insert marks a pending alias as one without target. */
  function Unaimed(s: State, alias: Id): State
    requires alias in s.rec
  {
    s.(rec := s.rec[alias := s.rec[alias].(target := None)])
  }

  lemma UnaimedInv(s: State, alias: Id)
    requires Inv(s) && alias in s.pending && alias in s.rec
    ensures Inv(Unaimed(s, alias))
      && (Cname in s.rec[alias].flags ==> Outdated(Unaimed(s, alias).rec, Unaimed(s, alias).rec[alias]))
  {
    InvMeans(s);
    NotHashed(s, alias);
    ChainsFrame(s, alias, Unaimed(s, alias).rec[alias]);
  }
}
