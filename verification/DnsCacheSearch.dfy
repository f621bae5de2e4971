module DnsCacheSearch {
  // The walk of cache_find_by_name, entry by entry: each pass of its loop takes the state of the
  // walk from j visited entries to j + 1 and keeps the cache invariant; and following the next
  // fields afterwards visits exactly the answers.

  import opened Common
  import opened DnsCache
  import opened DnsCacheWalk

  // ---------- States of the walk ----------

  /** The records after the walk: the freed ones are out of use under a new uid, the others
      are as they were. */
  ghost predicate Tracks(rec0: map<Id, Rec>, uid0: int, rec: map<Id, Rec>, uid: int, freed: set<Id>) {
    && rec.Keys == rec0.Keys && uid >= uid0
    && (forall id :: id in rec0 && id !in freed ==> rec[id] == rec0[id])
    && (forall id :: id in rec0 && id in freed ==> rec[id].uid >= uid0 && rec[id] == Freed(rec0[id], rec[id].uid))
  }

  /** The test the walk makes on the changed records is the one stated on the first ones. */
  lemma StaleTracks(s: State, rec: map<Id, Rec>, uid: int, freed: set<Id>, id: Id, now: int)
    requires RecordsOk(s) && Tracks(s.rec, s.uid, rec, uid, freed) && freed <= s.pool && id in s.rec && id !in freed
    ensures Stale(s.rec, s.rec[id], now, freed) <==> Expired(rec[id], now) || Outdated(rec, rec[id])
  {
  }

  lemma TracksFree(rec0: map<Id, Rec>, uid0: int, rec: map<Id, Rec>, uid: int, freed: set<Id>, c: Id)
    requires Tracks(rec0, uid0, rec, uid, freed) && c in rec0 && c !in freed
    ensures Tracks(rec0, uid0, rec[c := Freed(rec[c], uid)], uid + 1, freed + {c})
  {
  }

  function Reversed(xs: seq<Id>): (r: seq<Id>)
    ensures |r| == |xs|
  {
    if xs == [] then [] else [xs[|xs| - 1]] + Reversed(xs[..|xs| - 1])
  }

  lemma {:induction false} ReversedMembers(xs: seq<Id>)
    ensures forall x :: x in Reversed(xs) <==> x in xs
    ensures NoDup(xs) ==> NoDup(Reversed(xs))
    decreases |xs|
  {
    if xs != [] {
      FrontMembers(xs);
      ReversedMembers(xs[..|xs| - 1]);
    }
  }

  lemma ReversedAppend(xs: seq<Id>, c: Id)
    ensures Reversed(xs + [c]) == [c] + Reversed(xs)
  {
  }

  /** The youngest records of the list are the found ones, last one first. */
  ghost predicate Youngest(lru: seq<Id>, found: seq<Id>) {
    |found| <= |lru| && lru[..|found|] == Reversed(found)
  }

  lemma BehindPrefix(lru: seq<Id>, found: seq<Id>, c: Id)
    requires Youngest(lru, found) && c !in found && c in lru
    ensures IndexOf(lru, c) >= |found|
  {
    ReversedMembers(found);
    forall p | 0 <= p < |found|
      ensures lru[p] != c
    {
      assert lru[..|found|][p] in Reversed(found);
    }
  }

  lemma PrefixFree(lru: seq<Id>, found: seq<Id>, c: Id)
    requires c in lru && c !in found && Youngest(lru, found)
    ensures Youngest(Without(lru, c) + [c], found)
  {
    BehindPrefix(lru, found, c);
    var k := IndexOf(lru, c);
    assert (lru[..k] + lru[k + 1..] + [c])[..|found|] == lru[..|found|];
  }

  lemma PrefixPromote(lru: seq<Id>, found: seq<Id>, c: Id)
    requires c in lru && c !in found && Youngest(lru, found)
    ensures Youngest([c] + Without(lru, c), found + [c])
  {
    BehindPrefix(lru, found, c);
    var k := IndexOf(lru, c);
    assert ([c] + (lru[..k] + lru[k + 1..]))[..|found| + 1] == [c] + lru[..|found|];
    ReversedAppend(found, c);
  }

  function WalkTable(table: seq<seq<Id>>, b: nat, order: (seq<Id>, seq<Id>), j: nat): (r: seq<seq<Id>>)
    requires b < |table| && j <= |table[b]|
    ensures |r| == |table| && r[b] == order.0 + order.1 + table[b][j..]
  {
    table[b := order.0 + order.1 + table[b][j..]]
  }

  /** A state of the walk along chain b: the entries before j have been visited; order is
      what is left of them, freed the records freed and found the pool records found. */
  ghost predicate WalkState(s0: State, s: State, b: nat, j: nat,
                            order: (seq<Id>, seq<Id>), freed: set<Id>, found: seq<Id>)
    requires b < |s0.table| && j <= |s0.table[b]|
  {
    && s.pool == s0.pool && s.hash == s0.hash && s.pending == s0.pending
    && s.table == WalkTable(s0.table, b, order, j)
    && Tracks(s0.rec, s0.uid, s.rec, s.uid, freed)
    && Youngest(s.lru, found) && |s.lru| == |s0.lru|
  }

  lemma TableDrop(table: seq<seq<Id>>, b: nat, order: (seq<Id>, seq<Id>), j: nat)
    requires b < |table| && j < |table[b]|
    ensures var (t, k) := (WalkTable(table, b, order, j), |order.0| + |order.1|);
            k < |t[b]| && t[b := RemoveAt(t[b], k)] == WalkTable(table, b, order, j + 1)
  {
    var t, k := WalkTable(table, b, order, j), |order.0| + |order.1|;
    assert t[b][..k] == order.0 + order.1;
    assert t[b][k + 1..] == table[b][j + 1..];
  }

  lemma DropState(s0: State, s: State, b: nat, j: nat, order: (seq<Id>, seq<Id>), freed: set<Id>, found: seq<Id>)
    requires b < |s0.table| && j < |s0.table[b]| && WalkState(s0, s, b, j, order, freed, found)
    requires var c := s0.table[b][j]; c in s0.rec && c !in freed && c !in found && (c in s.pool ==> c in s.lru)
    ensures var (c, k) := (s0.table[b][j], |order.0| + |order.1|);
            && k < |s.table[b]| && s.table[b][k] == c && (c in s.pool ==> c in s.rec)
            && WalkState(s0, Dropped(s, b, k), b, j + 1, order, if c in s.pool then freed + {c} else freed, found)
  {
    var c := s0.table[b][j];
    TableDrop(s0.table, b, order, j);
    if c in s.pool {
      PrefixFree(s.lru, found, c);
      TracksFree(s0.rec, s0.uid, s.rec, s.uid, freed, c);
    }
  }

  /** An entry that is not moved stays behind everything visited. */
  lemma MissState(s0: State, s: State, b: nat, j: nat, order: (seq<Id>, seq<Id>), freed: set<Id>, found: seq<Id>)
    requires b < |s0.table| && j < |s0.table[b]| && WalkState(s0, s, b, j, order, freed, found)
    ensures var c := s0.table[b][j];
            && (order.1 == [] ==> WalkState(s0, s, b, j + 1, (order.0 + [c], []), freed, found))
            && WalkState(s0, s, b, j + 1, (order.0, order.1 + [c]), freed, found)
  {
    var c := s0.table[b][j];
    assert order.0 + order.1 + s0.table[b][j..] == order.0 + (order.1 + [c]) + s0.table[b][j + 1..];
    assert order.1 == [] ==> order.0 + order.1 + s0.table[b][j..] == (order.0 + [c]) + [] + s0.table[b][j + 1..];
  }

  lemma PromoteState(s0: State, s: State, b: nat, j: nat, order: (seq<Id>, seq<Id>), freed: set<Id>, found: seq<Id>,
                     c: Id)
    requires b < |s0.table| && j <= |s0.table[b]| && WalkState(s0, s, b, j, order, freed, found)
    requires c in s.lru && c !in found
    ensures WalkState(s0, Promoted(s, c), b, j, order, freed, found + [c])
  {
    PrefixPromote(s.lru, found, c);
  }

  /** A later hit of the same kind moves up to just before the first hit. */
  lemma MoveState(s0: State, s: State, b: nat, j: nat, order: (seq<Id>, seq<Id>), freed: set<Id>, found: seq<Id>)
    requires b < |s0.table| && j < |s0.table[b]| && WalkState(s0, s, b, j, order, freed, found)
    ensures |order.0| + |order.1| < |s.table[b]|
    ensures WalkState(s0, Moved(s, b, |order.0| + |order.1|, |order.0|), b, j + 1,
                      (order.0 + [s0.table[b][j]], order.1), freed, found)
  {
    var c, i, k := s0.table[b][j], |order.0| + |order.1|, |order.0|;
    var chain := s.table[b];
    assert chain == order.0 + order.1 + [c] + s0.table[b][j + 1..];
    assert MoveUp(chain, i, k) == order.0 + [c] + order.1 + s0.table[b][j + 1..];
  }

  // ---------- One pass of the loop ----------

  predicate Live(s: State, c: Id, now: int)
    requires c in s.rec
  {
    !Expired(s.rec[c], now) && !Outdated(s.rec, s.rec[c])
  }

  /** A hit that belongs to the list becomes its youngest record. */
  function Collected(s: State, c: Id): State
    requires c in s.rec && (Given(s.rec[c]) || c in s.lru)
  {
    if Given(s.rec[c]) then s else Promoted(s, c)
  }

  /** The entry of chain b at up is one the walk can handle. */
  ghost predicate Visitable(s: State, b: nat, up: nat) {
    && b < |s.table| && up < |s.table[b]|
    && var c := s.table[b][up];
       c in s.rec && (c in s.pool ==> c in s.lru) && (c in s.pool <==> !Given(s.rec[c]))
  }

  /** The loop body on entry up of chain b, with the rotation point at insert. */
  ghost function Visited(s: State, b: nat, name: string, now: int, prot: set<Flag>, up: nat, insert: int,
                         insFlags: set<Flag>): State
    requires Visitable(s, b, up) && insert <= up
  {
    var c := s.table[b][up];
    if !Live(s, c, now) then Dropped(s, b, up)
    else if !Hit(s.rec[c], name, prot) then s
    else if insert >= 0 && OrderFlags(s.rec[c]) == insFlags then Moved(Collected(s, c), b, up, insert)
    else Collected(s, c)
  }

  /** The cursor after that loop body. */
  ghost function Cursor(s: State, c: Id, name: string, now: int, prot: set<Flag>, up: nat, insert: int,
                        insFlags: set<Flag>)
    : (nat, int, set<Flag>)
    requires c in s.rec
  {
    if !Live(s, c, now) then (up, insert, insFlags)
    else if !Hit(s.rec[c], name, prot) then (up + 1, insert, insFlags)
    else if insert < 0 then (up + 1, up, OrderFlags(s.rec[c]))
    else if OrderFlags(s.rec[c]) == insFlags then (up + 1, insert + 1, insFlags)
    else (up + 1, insert, insFlags)
  }

  /** Where the cursor stands for a given order: insert is the place of the first hit. */
  ghost predicate CursorAt(rec: map<Id, Rec>, order: (seq<Id>, seq<Id>), up: int, insert: int, insFlags: set<Flag>) {
    && up == |order.0| + |order.1|
    && insert == (if order.1 == [] then -1 else |order.0|)
    && (order.1 != [] ==> order.1[0] in rec && insFlags == OrderFlags(rec[order.1[0]]))
  }

  lemma CollectedState(s0: State, s: State, b: nat, j: nat, order: (seq<Id>, seq<Id>), freed: set<Id>, found: seq<Id>,
                       c: Id)
    requires b < |s0.table| && j <= |s0.table[b]|
    requires WalkState(s0, s, b, j, order, freed, found)
    requires c !in found && c in s.rec && (c in s.pool <==> !Given(s.rec[c])) && (c in s.pool ==> c in s.lru)
    ensures WalkState(s0, Collected(s, c), b, j, order, freed, if c in s.pool then found + [c] else found)
  {
    if c in s.pool {
      PromoteState(s0, s, b, j, order, freed, found, c);
    }
  }

  lemma LiveState(s0: State, s: State, b: nat, name: string, now: int, prot: set<Flag>, j: nat,
                  order: (seq<Id>, seq<Id>), freed: set<Id>, found: seq<Id>, up: nat, insert: int, insFlags: set<Flag>)
    requires b < |s0.table| && j < |s0.table[b]| && WalkState(s0, s, b, j, order, freed, found)
    requires forall i :: 0 <= i < |order.1| ==> order.1[i] in s0.rec
    requires CursorAt(s0.rec, order, up, insert, insFlags)
    requires var c := s0.table[b][j];
             c !in found && c in s0.rec && c in s.rec && s.rec[c] == s0.rec[c] && Live(s, c, now)
    requires Visitable(s, b, up) && s.table[b][up] == s0.table[b][j]
    ensures var (c, cursor) := (s0.table[b][j], Cursor(s, s0.table[b][j], name, now, prot, up, insert, insFlags));
            && WalkState(s0, Visited(s, b, name, now, prot, up, insert, insFlags), b, j + 1,
                         PlaceOne(s0.rec, name, prot, order, c), freed,
                         if Hit(s0.rec[c], name, prot) && c in s.pool then found + [c] else found)
            && CursorAt(s0.rec, PlaceOne(s0.rec, name, prot, order, c), cursor.0, cursor.1, cursor.2)
  {
    var c := s0.table[b][j];
    if Hit(s0.rec[c], name, prot) {
      CollectedState(s0, s, b, j, order, freed, found, c);
      var s1 := Collected(s, c);
      var found' := if c in s.pool then found + [c] else found;
      if insert >= 0 && OrderFlags(s.rec[c]) == insFlags {
        MoveState(s0, s1, b, j, order, freed, found');
      } else {
        MissState(s0, s1, b, j, order, freed, found');
        assert order.1 == [] ==> order.1 + [c] == [c];
      }
    } else {
      MissState(s0, s, b, j, order, freed, found);
    }
  }

  /** The walk with j entries visited. */
  ghost predicate Walking(s0: State, s: State, b: nat, name: string, now: int, prot: set<Flag>, j: nat)
    requires Walkable(s0, b) && j <= |s0.table[b]|
  {
    && |s.table| == |s0.table| && s.pool == s0.pool
    && forall u: nat {:trigger OpenWalk(s, j, u)} :: OpenWalk(s, j, u) ==>
       WalkState(s0, s, b, j, OrderUpTo(s0, b, name, now, prot, j), FreedUpTo(s0, b, now, Nothing, j),
                 HitsUpTo(s0, b, name, now, prot, true, j))
  }

  ghost predicate OpenWalk(s: State, j: nat, u: nat) {
    true
  }

  lemma WalkingMeans(s0: State, s: State, b: nat, name: string, now: int, prot: set<Flag>, j: nat)
    requires Walkable(s0, b) && j <= |s0.table[b]| && Walking(s0, s, b, name, now, prot, j)
    ensures WalkState(s0, s, b, j, OrderUpTo(s0, b, name, now, prot, j), FreedUpTo(s0, b, now, Nothing, j),
                      HitsUpTo(s0, b, name, now, prot, true, j))
  {
    assert OpenWalk(s, j, 0);
  }

  lemma NotYet(s: State, b: nat, name: string, now: int, prot: set<Flag>, j: nat)
    requires Walkable(s, b) && j < |s.table[b]|
    ensures s.table[b][j] !in HitsUpTo(s, b, name, now, prot, true, j)
    ensures s.table[b][j] !in HitsUpTo(s, b, name, now, prot, false, j)
    ensures s.table[b][j] !in FreedUpTo(s, b, now, Nothing, j)
  {
    HitsMembers(s, b, name, now, prot, true, j);
    HitsMembers(s, b, name, now, prot, false, j);
    FreedMembers(s, b, now, Nothing, j, j);
  }

  /** The entry the walk is at, and what its tests mean. */
  lemma {:induction false} WalkAt(s0: State, s: State, b: nat, name: string, now: int, prot: set<Flag>, j: nat)
    requires Inv(s0) && Walkable(s0, b) && j < |s0.table[b]| && Walking(s0, s, b, name, now, prot, j) && Inv(s)
    ensures var (c, order) := (s0.table[b][j], OrderUpTo(s0, b, name, now, prot, j));
            && Visitable(s, b, |order.0| + |order.1|) && s.table[b][|order.0| + |order.1|] == c
            && s.rec[c] == s0.rec[c] && (c in s.pool ==> InUse(s.rec[c]))
            && (Goes(s0, b, now, Nothing, j) <==> !Live(s, c, now))
  {
    WalkingMeans(s0, s, b, name, now, prot, j);
    InvMeans(s0);
    InvMeans(s);
    var order := OrderUpTo(s0, b, name, now, prot, j);
    NotYet(s0, b, name, now, prot, j);
    StaleTracks(s0, s.rec, s.uid, FreedUpTo(s0, b, now, Nothing, j), s0.table[b][j], now);
    assert s.table[b][|order.0| + |order.1|] == s0.table[b][j];
    InChain(s, b, |order.0| + |order.1|);
  }

  lemma VisitedDead(s0: State, s: State, b: nat, name: string, now: int, prot: set<Flag>, j: nat, up: nat)
    requires Walkable(s0, b) && j < |s0.table[b]| && Walking(s0, s, b, name, now, prot, j)
      && Goes(s0, b, now, Nothing, j)
    requires var order := OrderUpTo(s0, b, name, now, prot, j); up == |order.0| + |order.1|
    requires Visitable(s, b, up) && s.table[b][up] == s0.table[b][j]
    ensures Walking(s0, Dropped(s, b, up), b, name, now, prot, j + 1)
    ensures OrderUpTo(s0, b, name, now, prot, j + 1) == OrderUpTo(s0, b, name, now, prot, j)
  {
    WalkingMeans(s0, s, b, name, now, prot, j);
    NotYet(s0, b, name, now, prot, j);
    DropState(s0, s, b, j, OrderUpTo(s0, b, name, now, prot, j), FreedUpTo(s0, b, now, Nothing, j),
              HitsUpTo(s0, b, name, now, prot, true, j));
  }

  lemma VisitedAlive(s0: State, s: State, b: nat, name: string, now: int, prot: set<Flag>, j: nat,
                     up: nat, insert: int, insFlags: set<Flag>)
    requires Walkable(s0, b) && j < |s0.table[b]| && Walking(s0, s, b, name, now, prot, j)
    requires CursorAt(s0.rec, OrderUpTo(s0, b, name, now, prot, j), up, insert, insFlags)
    requires Visitable(s, b, up) && s.table[b][up] == s0.table[b][j] && s.rec[s0.table[b][j]] == s0.rec[s0.table[b][j]]
    requires !Goes(s0, b, now, Nothing, j) && Live(s, s0.table[b][j], now)
    ensures Walking(s0, Visited(s, b, name, now, prot, up, insert, insFlags), b, name, now, prot, j + 1)
    ensures var cursor := Cursor(s, s0.table[b][j], name, now, prot, up, insert, insFlags);
            CursorAt(s0.rec, OrderUpTo(s0, b, name, now, prot, j + 1), cursor.0, cursor.1, cursor.2)
  {
    WalkingMeans(s0, s, b, name, now, prot, j);
    NotYet(s0, b, name, now, prot, j);
    LiveState(s0, s, b, name, now, prot, j, OrderUpTo(s0, b, name, now, prot, j), FreedUpTo(s0, b, now, Nothing, j),
              HitsUpTo(s0, b, name, now, prot, true, j), up, insert, insFlags);
  }

  /** Each pass takes the walk from j to j + 1. */
  lemma VisitedWalking(s0: State, s: State, b: nat, name: string, now: int, prot: set<Flag>, j: nat,
                       up: nat, insert: int, insFlags: set<Flag>)
    requires Walkable(s0, b) && j < |s0.table[b]| && Walking(s0, s, b, name, now, prot, j)
    requires CursorAt(s0.rec, OrderUpTo(s0, b, name, now, prot, j), up, insert, insFlags)
    requires Visitable(s, b, up) && s.table[b][up] == s0.table[b][j] && s.rec[s0.table[b][j]] == s0.rec[s0.table[b][j]]
    requires Goes(s0, b, now, Nothing, j) <==> !Live(s, s0.table[b][j], now)
    ensures Walking(s0, Visited(s, b, name, now, prot, up, insert, insFlags), b, name, now, prot, j + 1)
    ensures var cursor := Cursor(s, s0.table[b][j], name, now, prot, up, insert, insFlags);
            CursorAt(s0.rec, OrderUpTo(s0, b, name, now, prot, j + 1), cursor.0, cursor.1, cursor.2)
  {
    if Live(s, s0.table[b][j], now) {
      VisitedAlive(s0, s, b, name, now, prot, j, up, insert, insFlags);
    } else {
      VisitedDead(s0, s, b, name, now, prot, j, up);
    }
  }

  /** Each pass keeps the invariant: the rotation only passes entries of the same rank. */
  lemma VisitedInv(s: State, b: nat, name: string, now: int, prot: set<Flag>, up: nat, insert: int, insFlags: set<Flag>)
    requires Inv(s) && Visitable(s, b, up) && insert <= up
    requires insert >= 0 ==> s.table[b][insert] in s.rec && insFlags == OrderFlags(s.rec[s.table[b][insert]])
    ensures Inv(Visited(s, b, name, now, prot, up, insert, insFlags))
  {
    InvMeans(s);
    var c := s.table[b][up];
    InChain(s, b, up);
    if !Live(s, c, now) {
      DroppedInv(s, b, up);
    } else if Hit(s.rec[c], name, prot) {
      var s1 := Collected(s, c);
      if !Given(s.rec[c]) {
        PromotedInv(s, c);
      }
      if insert >= 0 && OrderFlags(s.rec[c]) == insFlags {
        OrderFlagsRank(s.rec[c], s.rec[s.table[b][insert]]);
        MovedInv(s1, b, up, insert);
      }
    }
  }

  /** The entry at the rotation point is the first hit, unchanged. */
  lemma RotationPoint(s0: State, s: State, b: nat, name: string, now: int, prot: set<Flag>, j: nat,
                      up: nat, insert: int, insFlags: set<Flag>)
    requires Walkable(s0, b) && j <= |s0.table[b]| && Walking(s0, s, b, name, now, prot, j) && insert >= 0
    requires CursorAt(s0.rec, OrderUpTo(s0, b, name, now, prot, j), up, insert, insFlags)
    ensures insert < |s.table[b]| && s.table[b][insert] in s.rec && insFlags == OrderFlags(s.rec[s.table[b][insert]])
  {
    WalkingMeans(s0, s, b, name, now, prot, j);
    var order := OrderUpTo(s0, b, name, now, prot, j);
    assert s.table[b][insert] == order.1[0];
    assert order.1[0] in multiset(order.0) + multiset(order.1);
    OrderMembers(s0, b, name, now, prot, j);
    assert order.1[0] in KeptUpTo(s0, b, now, Nothing, j);
    KeptMembers(s0, b, now, Nothing, j);
    var i :| 0 <= i < j && s0.table[b][i] == order.1[0] && !Goes(s0, b, now, Nothing, i);
    FreedMembers(s0, b, now, Nothing, j, i);
  }

  // ---------- The answers ----------

  ghost function NameBucket(s: State, name: string): (b: nat)
    requires Inv(s)
    ensures Walkable(s, b)
  {
    InvMeans(s);
    var b := BucketOf(s.hash, |s.table|, name);
    InvWalkable(s, b);
    b
  }

  /** What iterating over a lookup returns: the given records in chain order, then the pool
      records, last one first. */
  ghost function Answers(s: State, name: string, now: int, prot: set<Flag>): (a: seq<Id>)
    requires Inv(s)
  {
    var b := NameBucket(s, name);
    HitsUpTo(s, b, name, now, prot, false, |s.table[b]|) + Reversed(HitsUpTo(s, b, name, now, prot, true, |s.table[b]|))
  }

  lemma NoDupConcat(a: seq<Id>, b: seq<Id>)
    requires NoDup(a) && NoDup(b) && forall x :: x in a ==> x !in b
    ensures NoDup(a + b)
  {
    forall i, j | 0 <= i < j < |a + b|
      ensures (a + b)[i] != (a + b)[j]
    {
      if i < |a| <= j {
        assert a[i] in a && b[j - |a|] in b;
      }
    }
  }

  /** Entry i of chain b is a forward record of the name and protocol that is neither expired nor
      outdated when a walk along its chain reaches it. */
  ghost predicate LiveAt(s: State, b: nat, i: nat, name: string, now: int, prot: set<Flag>) {
    Walkable(s, b) && i < |s.table[b]| && LiveHit(s, b, name, now, prot, i)
  }

  lemma AnswersInChain(s: State, name: string, now: int, prot: set<Flag>)
    requires Inv(s)
    ensures NoDup(Answers(s, name, now, prot))
    ensures forall x :: x in Answers(s, name, now, prot) <==>
              exists i :: 0 <= i < |s.table[NameBucket(s, name)]| && s.table[NameBucket(s, name)][i] == x
                          && LiveHit(s, NameBucket(s, name), name, now, prot, i)
  {
    InvMeans(s);
    var b := NameBucket(s, name);
    var n := |s.table[b]|;
    HitsMembers(s, b, name, now, prot, false, n);
    HitsMembers(s, b, name, now, prot, true, n);
    ReversedMembers(HitsUpTo(s, b, name, now, prot, true, n));
    NoDupConcat(HitsUpTo(s, b, name, now, prot, false, n), Reversed(HitsUpTo(s, b, name, now, prot, true, n)));
  }

  /** A live record of the name hangs in no other chain. */
  lemma LiveInBucket(s: State, b: nat, i: nat, name: string, now: int, prot: set<Flag>)
    requires Inv(s) && LiveAt(s, b, i, name, now, prot)
    ensures b == NameBucket(s, name)
  {
    InvMeans(s);
    assert ChainOk(s.rec, s.table[b], b, s.hash, |s.table|);
  }

  /** The plain meaning of the answers: each once, and an entry anywhere in the table is among them
      exactly when it is a forward record of the name and protocol that is neither expired nor
      outdated when the walk reaches it. */
  lemma AnswersExact(s: State, name: string, now: int, prot: set<Flag>)
    requires Inv(s)
    ensures NoDup(Answers(s, name, now, prot))
    ensures forall x :: x in Answers(s, name, now, prot) <==>
              exists b, i :: 0 <= b < |s.table| && 0 <= i < |s.table[b]| && s.table[b][i] == x
                             && LiveAt(s, b, i, name, now, prot)
  {
    AnswersInChain(s, name, now, prot);
    var c, a := NameBucket(s, name), Answers(s, name, now, prot);
    forall x | x in a
      ensures exists b, i :: 0 <= b < |s.table| && 0 <= i < |s.table[b]| && s.table[b][i] == x
                             && LiveAt(s, b, i, name, now, prot)
    {
      var i :| 0 <= i < |s.table[c]| && s.table[c][i] == x && LiveHit(s, c, name, now, prot, i);
      assert LiveAt(s, c, i, name, now, prot);
    }
    forall b, i | 0 <= b < |s.table| && 0 <= i < |s.table[b]| && LiveAt(s, b, i, name, now, prot)
      ensures s.table[b][i] in a
    {
      LiveInBucket(s, b, i, name, now, prot);
    }
  }

  /** The walk is over. */
  ghost predicate Walked(s0: State, s: State, name: string, now: int, prot: set<Flag>)
    requires Inv(s0)
  {
    Walking(s0, s, NameBucket(s0, name), name, now, prot, |s0.table[NameBucket(s0, name)]|)
  }

  /** A live hit keeps its record through the walk. */
  lemma HitStays(s0: State, s: State, b: nat, name: string, now: int, prot: set<Flag>, i: nat)
    requires Walkable(s0, b) && Walking(s0, s, b, name, now, prot, |s0.table[b]|)
    requires i < |s0.table[b]| && !Goes(s0, b, now, Nothing, i)
    ensures s0.table[b][i] in s.rec && s.rec[s0.table[b][i]] == s0.rec[s0.table[b][i]]
  {
    WalkingMeans(s0, s, b, name, now, prot, |s0.table[b]|);
    FreedMembers(s0, b, now, Nothing, |s0.table[b]|, i);
  }

  lemma KeptAfter(s0: State, s: State, b: nat, name: string, now: int, prot: set<Flag>, id: Id)
    requires Walkable(s0, b) && Walking(s0, s, b, name, now, prot, |s0.table[b]|) && id in s.table[b]
    ensures exists i :: 0 <= i < |s0.table[b]| && s0.table[b][i] == id && !Goes(s0, b, now, Nothing, i)
  {
    WalkingMeans(s0, s, b, name, now, prot, |s0.table[b]|);
    var n := |s0.table[b]|;
    var order := OrderUpTo(s0, b, name, now, prot, n);
    assert s.table[b] == order.0 + order.1;
    assert id in multiset(order.0) + multiset(order.1);
    OrderMembers(s0, b, name, now, prot, n);
    assert id in KeptUpTo(s0, b, now, Nothing, n);
    KeptMembers(s0, b, now, Nothing, n);
  }

  /** After the walk the records of the list that are hits are the ones found: any other would
      be hashed under the name and so have been found. */
  lemma HitsOfList(s0: State, s: State, name: string, now: int, prot: set<Flag>, id: Id)
    requires Inv(s0) && Inv(s) && Walked(s0, s, name, now, prot) && id in s.lru
    ensures id in s.rec
    ensures Hit(s.rec[id], name, prot) ==>
              id in HitsUpTo(s0, NameBucket(s0, name), name, now, prot, true, |s0.table[NameBucket(s0, name)]|)
  {
    WalkingMeans(s0, s, NameBucket(s0, name), name, now, prot, |s0.table[NameBucket(s0, name)]|);
    InvMeans(s0);
    InvMeans(s);
    var b := NameBucket(s0, name);
    if Hit(s.rec[id], name, prot) {
      assert id in s.table[b];
      KeptAfter(s0, s, b, name, now, prot, id);
      var i :| 0 <= i < |s0.table[b]| && s0.table[b][i] == id && !Goes(s0, b, now, Nothing, i);
      HitStays(s0, s, b, name, now, prot, i);
      HitsMembers(s0, b, name, now, prot, true, |s0.table[b]|);
    }
  }

  // ---------- The links an iteration follows ----------

  ghost predicate LeadsOn(next: map<Id, Option<Id>>, g: seq<Id>, i: nat)
    requires i + 1 < |g|
  {
    g[i] in next && next[g[i]] == Some(g[i + 1])
  }

  /** g is linked through next from first to last. */
  ghost predicate NextChain(next: map<Id, Option<Id>>, g: seq<Id>, first: Option<Id>, last: Option<Id>) {
    && first == (if g == [] then None else Some(g[0]))
    && last == (if g == [] then None else Some(g[|g| - 1]))
    && forall i: nat {:trigger LeadsOn(next, g, i)} :: i + 1 < |g| ==> LeadsOn(next, g, i)
  }

  lemma NextAppend(next: map<Id, Option<Id>>, g: seq<Id>, first: Option<Id>, last: Option<Id>, c: Id)
    requires NextChain(next, g, first, last) && NoDup(g)
    ensures NextChain(if last.Some? then next[last.value := Some(c)] else next, g + [c],
                      if last.Some? then first else Some(c), Some(c))
  {
    var next', g' := if last.Some? then next[last.value := Some(c)] else next, g + [c];
    forall i: nat | i + 1 < |g'|
      ensures LeadsOn(next', g', i)
    {
      if i + 1 < |g| {
        assert LeadsOn(next, g, i) && g[i] != g[|g| - 1];
      }
    }
  }

  /** g is linked from ans on, and its end to head. */
  ghost predicate NextLinks(next: map<Id, Option<Id>>, g: seq<Id>, head: Option<Id>, ans: Option<Id>) {
    && ans == (if g == [] then head else Some(g[0]))
    && (forall i: nat {:trigger LeadsOn(next, g, i)} :: i + 1 < |g| ==> LeadsOn(next, g, i))
    && (g != [] ==> g[|g| - 1] in next && next[g[|g| - 1]] == head)
  }

  function Head(lru: seq<Id>): Option<Id> {
    if lru == [] then None else Some(lru[0])
  }

  /** The next field: the list's for a record of the list, its own for a given one. */
  function NextOf(lru: seq<Id>, next: map<Id, Option<Id>>, id: Id): Option<Id> {
    if id in lru then
      var k := IndexOf(lru, id);
      if k + 1 < |lru| then Some(lru[k + 1]) else None
    else if id in next then next[id] else None
  }

  /** The test both branches of cache_find_by_name end with. */
  function Checked(rec: map<Id, Rec>, ans: Option<Id>, name: string, prot: set<Flag>): Option<Id> {
    if ans.Some? && ans.value in rec && Hit(rec[ans.value], name, prot) then ans else None
  }

  /** The record of the list right behind the youngest n. */
  function Behind(lru: seq<Id>, n: nat): Option<Id> {
    if n < |lru| then Some(lru[n]) else None
  }

  /** Following the next fields from the first answer visits the answers in order. */
  lemma LinksFollow(lru: seq<Id>, next: map<Id, Option<Id>>, g: seq<Id>, young: seq<Id>, ans: Option<Id>, k: nat)
    requires NoDup(lru) && |young| <= |lru| && young == lru[..|young|] && NextLinks(next, g, Head(lru), ans)
    requires forall x :: x in g ==> x !in lru
    requires k < |g + young|
    ensures NextOf(lru, next, (g + young)[k])
         == if k + 1 < |g + young| then Some((g + young)[k + 1]) else Behind(lru, |young|)
  {
    if k < |g| {
      assert (g + young)[k] == g[k] && g[k] in g;
      if k + 1 < |g| {
        assert LeadsOn(next, g, k) && (g + young)[k + 1] == g[k + 1];
      } else if young != [] {
        assert (g + young)[k + 1] == young[0] == lru[0];
      }
    } else {
      var i := k - |g|;
      assert (g + young)[k] == young[i] == lru[i] && lru[i] in lru;
      IndexIs(lru, i);
      if i + 1 < |young| {
        assert (g + young)[k + 1] == young[i + 1] == lru[i + 1];
      }
    }
  }

  lemma IndexIs(s: seq<Id>, i: nat)
    requires NoDup(s) && i < |s|
    ensures IndexOf(s, s[i]) == i
  {
  }

  /** The links after a walk, and that they stay within the answers. */
  ghost predicate Primed(s0: State, s: State, next: map<Id, Option<Id>>, name: string, now: int, prot: set<Flag>,
                         ans: Option<Id>)
    requires Inv(s0)
  {
    var b := NameBucket(s0, name);
    Walked(s0, s, name, now, prot)
    && NextLinks(next, HitsUpTo(s0, b, name, now, prot, false, |s0.table[b]|), Head(s.lru), ans)
  }

  lemma AnswerIsHit(s0: State, s: State, name: string, now: int, prot: set<Flag>, k: nat)
    requires Inv(s0) && Inv(s) && Walked(s0, s, name, now, prot) && k < |Answers(s0, name, now, prot)|
    ensures var x := Answers(s0, name, now, prot)[k]; x in s.rec && Hit(s.rec[x], name, prot)
  {
    InvMeans(s0);
    InvMeans(s);
    var b := NameBucket(s0, name);
    AnswersInChain(s0, name, now, prot);
    var x := Answers(s0, name, now, prot)[k];
    assert x in Answers(s0, name, now, prot);
    var i :| 0 <= i < |s0.table[b]| && s0.table[b][i] == x && LiveHit(s0, b, name, now, prot, i);
    HitStays(s0, s, b, name, now, prot, i);
  }

  lemma GivenNotInList(s0: State, s: State, b: nat, name: string, now: int, prot: set<Flag>)
    requires Inv(s0) && Inv(s) && Walkable(s0, b) && s.pool == s0.pool
    ensures forall x :: x in HitsUpTo(s0, b, name, now, prot, false, |s0.table[b]|) ==> x !in s.lru
  {
    InvMeans(s0);
    InvMeans(s);
    HitsMembers(s0, b, name, now, prot, false, |s0.table[b]|);
  }

  /** The pointer that call k of an iteration looks at. */
  ghost function Pointer(s: State, next: map<Id, Option<Id>>, a: seq<Id>, ans: Option<Id>, k: nat): Option<Id>
    requires k <= |a|
  {
    if k == 0 then ans else NextOf(s.lru, next, a[k - 1])
  }

  lemma {:induction false} PointerIs(s0: State, s: State, next: map<Id, Option<Id>>, name: string, now: int,
                                     prot: set<Flag>,
                  ans: Option<Id>, k: nat)
    requires Inv(s0) && Inv(s) && Primed(s0, s, next, name, now, prot, ans) && k <= |Answers(s0, name, now, prot)|
    ensures var (a, b) := (Answers(s0, name, now, prot), NameBucket(s0, name));
            (Pointer(s, next, a, ans, k)
            == if k < |a| then Some(a[k]) else Behind(s.lru, |HitsUpTo(s0, b, name, now, prot, true, |s0.table[b]|)|))
  {
    WalkingMeans(s0, s, NameBucket(s0, name), name, now, prot, |s0.table[NameBucket(s0, name)]|);
    InvMeans(s0);
    InvMeans(s);
    var b := NameBucket(s0, name);
    var g, found := HitsUpTo(s0, b, name, now, prot, false, |s0.table[b]|),
      HitsUpTo(s0, b, name, now, prot, true, |s0.table[b]|);
    var young := Reversed(found);
    assert young == s.lru[..|young|];
    GivenNotInList(s0, s, b, name, now, prot);
    if k > 0 {
      LinksFollow(s.lru, next, g, young, ans, k - 1);
    } else if g == [] && young != [] {
      assert (g + young)[0] == s.lru[0];
    }
  }

  /** The search returns the first answer and each continuation the next one, and none after
      the last. */
  lemma Iteration(s0: State, s: State, next: map<Id, Option<Id>>, name: string, now: int, prot: set<Flag>,
                  ans: Option<Id>, k: nat)
    requires Inv(s0) && Inv(s) && Primed(s0, s, next, name, now, prot, ans) && k <= |Answers(s0, name, now, prot)|
    ensures var a := Answers(s0, name, now, prot);
            (Checked(s.rec, Pointer(s, next, a, ans, k), name, prot) == if k < |a| then Some(a[k]) else None)
  {
    WalkingMeans(s0, s, NameBucket(s0, name), name, now, prot, |s0.table[NameBucket(s0, name)]|);
    InvMeans(s0);
    InvMeans(s);
    PointerIs(s0, s, next, name, now, prot, ans, k);
    if k < |Answers(s0, name, now, prot)| {
      AnswerIsHit(s0, s, name, now, prot, k);
    } else {
      var b := NameBucket(s0, name);
      var found := HitsUpTo(s0, b, name, now, prot, true, |s0.table[b]|);
      if |found| < |s.lru| {
        NotFoundBehind(s.lru, found);
        HitsOfList(s0, s, name, now, prot, s.lru[|found|]);
      }
    }
  }

  lemma NotFoundBehind(lru: seq<Id>, found: seq<Id>)
    requires NoDup(lru) && Youngest(lru, found) && |found| < |lru|
    ensures lru[|found|] !in found
  {
    ReversedMembers(found);
    assert lru[|found|] !in lru[..|found|];
  }

  /** Before the first entry. */
  lemma WalkingStart(s: State, b: nat, name: string, now: int, prot: set<Flag>)
    requires Walkable(s, b)
    ensures Walking(s, s, b, name, now, prot, 0)
    ensures CursorAt(s.rec, OrderUpTo(s, b, name, now, prot, 0), 0, -1, {})
  {
    assert ([] + []) + s.table[b][0..] == s.table[b];
  }

  /** Inside the walk there are entries to visit exactly as long as j is not at the end. */
  lemma WalkingEnd(s0: State, s: State, b: nat, name: string, now: int, prot: set<Flag>, j: nat, up: nat, insert: int,
                   insFlags: set<Flag>)
    requires Walkable(s0, b) && j <= |s0.table[b]| && Walking(s0, s, b, name, now, prot, j)
    requires CursorAt(s0.rec, OrderUpTo(s0, b, name, now, prot, j), up, insert, insFlags)
    ensures b < |s.table| && (up < |s.table[b]| <==> j < |s0.table[b]|)
  {
    WalkingMeans(s0, s, b, name, now, prot, j);
  }

  /** A hit that is linked through its next field. */
  ghost predicate LinkedHit(s: State, c: Id, name: string, now: int, prot: set<Flag>) {
    c in s.rec && Live(s, c, now) && Hit(s.rec[c], name, prot) && Given(s.rec[c])
  }

  /** One pass of the search loop, with everything its invariant needs. */
  lemma {:induction false} PassOk(s0: State, s: State, b: nat, name: string, now: int, prot: set<Flag>, j: nat,
               up: nat, insert: int, insFlags: set<Flag>)
    requires Inv(s0) && Inv(s) && Walkable(s0, b) && j < |s0.table[b]| && Walking(s0, s, b, name, now, prot, j)
    requires CursorAt(s0.rec, OrderUpTo(s0, b, name, now, prot, j), up, insert, insFlags)
    ensures Visitable(s, b, up) && insert <= up && s.table[b][up] == s0.table[b][j]
    ensures Inv(Visited(s, b, name, now, prot, up, insert, insFlags))
    ensures Walking(s0, Visited(s, b, name, now, prot, up, insert, insFlags), b, name, now, prot, j + 1)
    ensures var (s', cursor) := (Visited(s, b, name, now, prot, up, insert, insFlags),
                                 Cursor(s, s0.table[b][j], name, now, prot, up, insert, insFlags));
            && CursorAt(s0.rec, OrderUpTo(s0, b, name, now, prot, j + 1), cursor.0, cursor.1, cursor.2)
            && b < |s'.table| && (cursor.0 < |s'.table[b]| <==> j + 1 < |s0.table[b]|)
    ensures var g := HitsUpTo(s0, b, name, now, prot, false, j);
            (HitsUpTo(s0, b, name, now, prot, false, j + 1)
             == if LinkedHit(s, s0.table[b][j], name, now, prot) then g + [s0.table[b][j]] else g)
  {
    WalkingMeans(s0, s, b, name, now, prot, j);
    WalkAt(s0, s, b, name, now, prot, j);
    VisitedWalking(s0, s, b, name, now, prot, j, up, insert, insFlags);
    if insert >= 0 {
      RotationPoint(s0, s, b, name, now, prot, j, up, insert, insFlags);
    }
    VisitedInv(s, b, name, now, prot, up, insert, insFlags);
    var cursor := Cursor(s, s0.table[b][j], name, now, prot, up, insert, insFlags);
    WalkingEnd(s0, Visited(s, b, name, now, prot, up, insert, insFlags), b, name, now, prot, j + 1,
               cursor.0, cursor.1, cursor.2);
  }

  /** Element k of a, if there is one. */
  function At(a: seq<Id>, k: nat): Option<Id> {
    if k < |a| then Some(a[k]) else None
  }

  /** A call continued from the k-th answer returns the next one, or none. */
  ghost predicate ContinuesAt(s: State, next: map<Id, Option<Id>>, name: string, prot: set<Flag>, a: seq<Id>, k: nat)
    requires k < |a|
  {
    Checked(s.rec, NextOf(s.lru, next, a[k]), name, prot) == At(a, k + 1)
  }

  /** What a lookup leaves for the calls that continue it. */
  ghost predicate Continues(s: State, next: map<Id, Option<Id>>, name: string, prot: set<Flag>, a: seq<Id>) {
    forall k: nat :: k < |a| ==> ContinuesAt(s, next, name, prot, a, k)
  }

  lemma {:induction false} IterationAll(s0: State, s: State, next: map<Id, Option<Id>>, name: string, now: int,
                                        prot: set<Flag>,
                     ans: Option<Id>)
    requires Inv(s0) && Inv(s) && Primed(s0, s, next, name, now, prot, ans)
    ensures Checked(s.rec, ans, name, prot) == At(Answers(s0, name, now, prot), 0)
    ensures Continues(s, next, name, prot, Answers(s0, name, now, prot))
  {
    var a := Answers(s0, name, now, prot);
    Iteration(s0, s, next, name, now, prot, ans, 0);
    forall k: nat | k < |a|
      ensures ContinuesAt(s, next, name, prot, a, k)
    {
      IterationAt(s0, s, next, name, now, prot, ans, k);
    }
  }

  lemma {:induction false} IterationAt(s0: State, s: State, next: map<Id, Option<Id>>, name: string, now: int,
                                       prot: set<Flag>, ans: Option<Id>, k: nat)
    requires Inv(s0) && Inv(s) && Primed(s0, s, next, name, now, prot, ans) && k < |Answers(s0, name, now, prot)|
    ensures ContinuesAt(s, next, name, prot, Answers(s0, name, now, prot), k)
  {
    Iteration(s0, s, next, name, now, prot, ans, k + 1);
  }

  /** The links when the walk ends. */
  lemma NextClose(next: map<Id, Option<Id>>, g: seq<Id>, first: Option<Id>, last: Option<Id>, head: Option<Id>)
    requires NextChain(next, g, first, last) && NoDup(g)
    ensures var next' := if last.Some? then next[last.value := head] else next;
            NextLinks(next', g, head, if last.Some? then first else head)
  {
    var next' := if last.Some? then next[last.value := head] else next;
    forall i: nat | i + 1 < |g|
      ensures LeadsOn(next', g, i)
    {
      assert LeadsOn(next, g, i) && g[i] != g[|g| - 1];
    }
  }

  lemma HitsNoDup(s: State, b: nat, name: string, now: int, prot: set<Flag>, inside: bool, j: nat)
    requires Walkable(s, b) && j <= |s.table[b]|
    ensures NoDup(HitsUpTo(s, b, name, now, prot, inside, j))
  {
    HitsMembers(s, b, name, now, prot, inside, j);
  }
}
