module DnsCacheWalk {
  // What one walk along a hash chain of the dnsmasq cache does, as functions of the chain before
  // the walk: which entries go, which stay, in which order they are left and which are answers.

  import opened DnsCache

  /** Which unexpired entries a walk removes besides the outdated ones. */
  datatype Purge = Nothing | ByName(name: string, flags: set<Flag>)

  /** A forward record of the name being inserted, of the same type or with an alias involved. */
  predicate Clashes(r: Rec, p: Purge) {
    p.ByName? && Forward in r.flags
    && (Meets(p.flags * r.flags, {Ipv4, Ipv6, DnsKey, Ds}) || Cname in r.flags || Cname in p.flags)
    && SameName(r.name, p.name)
  }

  /** Expired or outdated when the walk reaches it: an alias is also outdated when the walk
      freed its target before. */
  predicate Stale(rec: map<Id, Rec>, r: Rec, now: int, freed: set<Id>) {
    Expired(r, now) || Outdated(rec, r) || (Cname in r.flags && r.target.Some? && r.target.value in freed)
  }

  predicate Hit(r: Rec, name: string, prot: set<Flag>) {
    Forward in r.flags && Meets(r.flags, prot) && SameName(r.name, name)
  }

  function OrderFlags(r: Rec): set<Flag> {
    r.flags * {Reverse, Immortal}
  }

  lemma OrderFlagsRank(a: Rec, b: Rec)
    requires OrderFlags(a) == OrderFlags(b)
    ensures Rank(a) == Rank(b)
  {
    assert forall f :: f in OrderFlags(a) <==> f in OrderFlags(b);
    assert Reverse in a.flags <==> Reverse in OrderFlags(a);
    assert Reverse in b.flags <==> Reverse in OrderFlags(b);
    assert Immortal in a.flags <==> Immortal in OrderFlags(a);
    assert Immortal in b.flags <==> Immortal in OrderFlags(b);
  }

  // ---------- The first j entries of a chain ----------

  ghost predicate Walkable(s: State, b: nat) {
    b < |s.table| && NoDup(s.table[b]) && forall i :: 0 <= i < |s.table[b]| ==> s.table[b][i] in s.rec
  }

  lemma InvWalkable(s: State, b: nat)
    requires Inv(s) && b < |s.table|
    ensures Walkable(s, b)
  {
    InvMeans(s);
    assert ChainOk(s.rec, s.table[b], b, s.hash, |s.table|);
  }

  /** The pool records freed in the first j entries of chain b. */
  ghost function FreedUpTo(s: State, b: nat, now: int, p: Purge, j: nat): (freed: set<Id>)
    requires Walkable(s, b) && j <= |s.table[b]|
    ensures freed <= s.pool
  {
    if j == 0 then {}
    else
      var (c, freed) := (s.table[b][j - 1], FreedUpTo(s, b, now, p, j - 1));
      if c in s.pool && (Stale(s.rec, s.rec[c], now, freed) || Clashes(s.rec[c], p)) then freed + {c} else freed
  }

  /** Entry i of chain b goes when the walk reaches it. */
  ghost predicate Goes(s: State, b: nat, now: int, p: Purge, i: nat)
    requires Walkable(s, b) && i < |s.table[b]|
  {
    var r := s.rec[s.table[b][i]];
    Stale(s.rec, r, now, FreedUpTo(s, b, now, p, i)) || Clashes(r, p)
  }

  /** The entries that stay. */
  ghost function KeptUpTo(s: State, b: nat, now: int, p: Purge, j: nat): (kept: seq<Id>)
    requires Walkable(s, b) && j <= |s.table[b]|
  {
    if j == 0 then []
    else
      var kept := KeptUpTo(s, b, now, p, j - 1);
      if Goes(s, b, now, p, j - 1) then kept else kept + [s.table[b][j - 1]]
  }

  /** Entry i is an answer of a lookup. */
  ghost predicate LiveHit(s: State, b: nat, name: string, now: int, prot: set<Flag>, i: nat)
    requires Walkable(s, b) && i < |s.table[b]|
  {
    !Goes(s, b, now, Nothing, i) && Hit(s.rec[s.table[b][i]], name, prot)
  }

  /** The answers of a lookup among the first j entries, the ones in the pool or the others. */
  ghost function HitsUpTo(s: State, b: nat, name: string, now: int, prot: set<Flag>, inside: bool,
                          j: nat): (hits: seq<Id>)
    requires Walkable(s, b) && j <= |s.table[b]|
  {
    if j == 0 then []
    else
      var (c, hits) := (s.table[b][j - 1], HitsUpTo(s, b, name, now, prot, inside, j - 1));
      if LiveHit(s, b, name, now, prot, j - 1) && (c in s.pool <==> inside) then hits + [c] else hits
  }

  /** Round robin: the first hit starts the back part; each later hit with the same order
      flags goes to the end of the front part, everything else to the end of the back part
      once there is one. */
  ghost function OrderUpTo(s: State, b: nat, name: string, now: int, prot: set<Flag>, j: nat): (r: (seq<Id>, seq<Id>))
    requires Walkable(s, b) && j <= |s.table[b]|
    ensures forall i :: 0 <= i < |r.1| ==> r.1[i] in s.rec
  {
    if j == 0 then ([], [])
    else
      var order := OrderUpTo(s, b, name, now, prot, j - 1);
      if Goes(s, b, now, Nothing, j - 1) then order else PlaceOne(s.rec, name, prot, order, s.table[b][j - 1])
  }

  function PlaceOne(rec: map<Id, Rec>, name: string, prot: set<Flag>, r: (seq<Id>, seq<Id>),
                    c: Id): (q: (seq<Id>, seq<Id>))
    requires c in rec && forall i :: 0 <= i < |r.1| ==> r.1[i] in rec
    ensures |q.0| + |q.1| == |r.0| + |r.1| + 1
  {
    if r.1 == [] then
      if Hit(rec[c], name, prot) then (r.0, [c]) else (r.0 + [c], [])
    else if Hit(rec[c], name, prot) && OrderFlags(rec[c]) == OrderFlags(rec[r.1[0]]) then (r.0 + [c], r.1)
    else (r.0, r.1 + [c])
  }

  // ---------- What these functions say ----------

  lemma {:induction false} FreedMembers(s: State, b: nat, now: int, p: Purge, j: nat, i: nat)
    requires Walkable(s, b) && j <= |s.table[b]| && i < |s.table[b]|
    ensures s.table[b][i] in FreedUpTo(s, b, now, p, j) <==> i < j && s.table[b][i] in s.pool && Goes(s, b, now, p, i)
    decreases j
  {
    if j > 0 {
      FreedMembers(s, b, now, p, j - 1, i);
      assert i != j - 1 ==> s.table[b][i] != s.table[b][j - 1];
    }
  }

  /** Kept are the entries that do not go, each once and in their order. */
  lemma {:induction false} KeptMembers(s: State, b: nat, now: int, p: Purge, j: nat)
    requires Walkable(s, b) && j <= |s.table[b]|
    ensures forall x :: x in KeptUpTo(s, b, now, p, j) <==>
              exists i :: 0 <= i < j && s.table[b][i] == x && !Goes(s, b, now, p, i)
    ensures NoDup(KeptUpTo(s, b, now, p, j))
    decreases j
  {
    if j > 0 {
      KeptMembers(s, b, now, p, j - 1);
      assert s.table[b][j - 1] !in KeptUpTo(s, b, now, p, j - 1);
    }
  }

  /** The answers are the live hits of that kind, each once. */
  lemma {:induction false} HitsMembers(s: State, b: nat, name: string, now: int, prot: set<Flag>, inside: bool, j: nat)
    requires Walkable(s, b) && j <= |s.table[b]|
    ensures forall x :: x in HitsUpTo(s, b, name, now, prot, inside, j) <==>
              exists i :: 0 <= i < j && s.table[b][i] == x && LiveHit(s, b, name, now, prot, i)
                && (x in s.pool <==> inside)
    ensures NoDup(HitsUpTo(s, b, name, now, prot, inside, j))
    decreases j
  {
    if j > 0 {
      HitsMembers(s, b, name, now, prot, inside, j - 1);
      var (c, hits) := (s.table[b][j - 1], HitsUpTo(s, b, name, now, prot, inside, j - 1));
      assert c !in hits;
      NoDupMore(hits, c);
    }
  }

  lemma NoDupMore(xs: seq<Id>, x: Id)
    requires NoDup(xs) && x !in xs
    ensures NoDup(xs + [x]) && forall y :: y in xs + [x] <==> y in xs || y == x
  {
  }

  lemma PlaceOneMembers(rec: map<Id, Rec>, name: string, prot: set<Flag>, r: (seq<Id>, seq<Id>), c: Id)
    requires c in rec && forall i :: 0 <= i < |r.1| ==> r.1[i] in rec
    ensures var q := PlaceOne(rec, name, prot, r, c);
            multiset(q.0) + multiset(q.1) == multiset(r.0) + multiset(r.1) + multiset{c}
  {
  }

  /** The rotation loses no kept entry and adds none. */
  lemma {:induction false} OrderMembers(s: State, b: nat, name: string, now: int, prot: set<Flag>, j: nat)
    requires Walkable(s, b) && j <= |s.table[b]|
    ensures var r := OrderUpTo(s, b, name, now, prot, j);
            multiset(r.0) + multiset(r.1) == multiset(KeptUpTo(s, b, now, Nothing, j))
    decreases j
  {
    if j > 0 {
      OrderMembers(s, b, name, now, prot, j - 1);
      if !Goes(s, b, now, Nothing, j - 1) {
        PlaceOneMembers(s.rec, name, prot, OrderUpTo(s, b, name, now, prot, j - 1), s.table[b][j - 1]);
      }
    }
  }

  /** The hits with the given order flags, or all other entries. */
  function Select(rec: map<Id, Rec>, name: string, prot: set<Flag>, f: set<Flag>, same: bool, xs: seq<Id>): seq<Id>
    requires forall i :: 0 <= i < |xs| ==> xs[i] in rec
  {
    if xs == [] then []
    else
      var (c, rest) := (xs[|xs| - 1], Select(rec, name, prot, f, same, xs[..|xs| - 1]));
      if (Hit(rec[c], name, prot) && OrderFlags(rec[c]) == f) <==> same then rest + [c] else rest
  }

  lemma SelectAppend(rec: map<Id, Rec>, name: string, prot: set<Flag>, f: set<Flag>, same: bool, xs: seq<Id>, c: Id)
    requires c in rec && forall i :: 0 <= i < |xs| ==> xs[i] in rec
    ensures Select(rec, name, prot, f, same, xs + [c])
         == Select(rec, name, prot, f, same, xs)
            + if (Hit(rec[c], name, prot) && OrderFlags(rec[c]) == f) <==> same then [c] else []
  {
  }

  /** What the rotation does to kept entries: with first the first hit, the hits of its kind
      were first and then those now in front; only first is in the back part; and the other
      entries keep their order. */
  ghost predicate Rotated(rec: map<Id, Rec>, name: string, prot: set<Flag>, kept: seq<Id>, r: (seq<Id>, seq<Id>)) {
    && (forall i :: 0 <= i < |kept| ==> kept[i] in rec)
    && (forall i :: 0 <= i < |r.0| ==> r.0[i] in rec)
    && (forall i :: 0 <= i < |r.1| ==> r.1[i] in rec)
    && if r.1 == [] then r.0 == kept && forall i :: 0 <= i < |kept| ==> !Hit(rec[kept[i]], name, prot)
       else
         var f := OrderFlags(rec[r.1[0]]);
         && Select(rec, name, prot, f, true, kept) == [r.1[0]] + Select(rec, name, prot, f, true, r.0)
         && Select(rec, name, prot, f, true, r.1) == [r.1[0]]
         && Select(rec, name, prot, f, false, kept)
            == Select(rec, name, prot, f, false, r.0) + Select(rec, name, prot, f, false, r.1)
  }

  lemma {:induction false} SelectNone(rec: map<Id, Rec>, name: string, prot: set<Flag>, f: set<Flag>, xs: seq<Id>)
    requires forall i :: 0 <= i < |xs| ==> xs[i] in rec && !Hit(rec[xs[i]], name, prot)
    ensures Select(rec, name, prot, f, true, xs) == [] && Select(rec, name, prot, f, false, xs) == xs
    decreases |xs|
  {
    if xs != [] {
      SelectNone(rec, name, prot, f, xs[..|xs| - 1]);
    }
  }

  lemma RotatedFirst(rec: map<Id, Rec>, name: string, prot: set<Flag>, kept: seq<Id>, c: Id)
    requires c in rec && Rotated(rec, name, prot, kept, (kept, [])) && Hit(rec[c], name, prot)
    ensures Rotated(rec, name, prot, kept + [c], (kept, [c]))
  {
    var f := OrderFlags(rec[c]);
    SelectNone(rec, name, prot, f, kept);
    SelectAppend(rec, name, prot, f, true, kept, c);
    SelectAppend(rec, name, prot, f, false, kept, c);
    SelectAppend(rec, name, prot, f, true, [], c);
    SelectAppend(rec, name, prot, f, false, [], c);
    assert [] + [c] == [c];
  }

  lemma RotatedSame(rec: map<Id, Rec>, name: string, prot: set<Flag>, kept: seq<Id>, r: (seq<Id>, seq<Id>), c: Id)
    requires c in rec && Rotated(rec, name, prot, kept, r) && r.1 != []
    requires Hit(rec[c], name, prot) && OrderFlags(rec[c]) == OrderFlags(rec[r.1[0]])
    ensures Rotated(rec, name, prot, kept + [c], (r.0 + [c], r.1))
  {
  }

  lemma RotatedOther(rec: map<Id, Rec>, name: string, prot: set<Flag>, kept: seq<Id>, r: (seq<Id>, seq<Id>), c: Id)
    requires c in rec && Rotated(rec, name, prot, kept, r) && r.1 != []
    requires !(Hit(rec[c], name, prot) && OrderFlags(rec[c]) == OrderFlags(rec[r.1[0]]))
    ensures Rotated(rec, name, prot, kept + [c], (r.0, r.1 + [c]))
  {
  }

  lemma RotatedNext(rec: map<Id, Rec>, name: string, prot: set<Flag>, kept: seq<Id>, r: (seq<Id>, seq<Id>), c: Id)
    requires c in rec && Rotated(rec, name, prot, kept, r)
    ensures Rotated(rec, name, prot, kept + [c], PlaceOne(rec, name, prot, r, c))
  {
    if r.1 == [] {
      if Hit(rec[c], name, prot) {
        RotatedFirst(rec, name, prot, kept, c);
      }
    } else if Hit(rec[c], name, prot) && OrderFlags(rec[c]) == OrderFlags(rec[r.1[0]]) {
      RotatedSame(rec, name, prot, kept, r, c);
    } else {
      RotatedOther(rec, name, prot, kept, r, c);
    }
  }

  /** A lookup leaves the kept entries of its chain rotated. */
  lemma {:induction false} OrderIsRotation(s: State, b: nat, name: string, now: int, prot: set<Flag>, j: nat)
    requires Walkable(s, b) && j <= |s.table[b]|
    ensures Rotated(s.rec, name, prot, KeptUpTo(s, b, now, Nothing, j), OrderUpTo(s, b, name, now, prot, j))
    decreases j
  {
    if j > 0 {
      OrderIsRotation(s, b, name, now, prot, j - 1);
      if !Goes(s, b, now, Nothing, j - 1) {
        RotatedNext(s.rec, name, prot, KeptUpTo(s, b, now, Nothing, j - 1), OrderUpTo(s, b, name, now, prot, j - 1),
                    s.table[b][j - 1]);
      }
    }
  }
}
