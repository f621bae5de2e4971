/**
  The pointers behind the cache's list of last use: a doubly linked list whose links cache_link,
  cache_unlink and cache_free rewrite in place.
*/
module DnsCacheList {
  import opened Common
  import opened DnsCache

  /** The i-th record of the list, or a null pointer. */
  function Nth(list: seq<Id>, i: int): Option<Id> {
    if 0 <= i < |list| then Some(list[i]) else None
  }

  /** The next field of the i-th record leads on, and its prev field back. */
  ghost predicate LeadsOn(next: map<Id, Option<Id>>, list: seq<Id>, i: nat)
    requires i < |list|
  {
    list[i] in next && next[list[i]] == Nth(list, i + 1)
  }

  ghost predicate LeadsBack(prev: map<Id, Option<Id>>, list: seq<Id>, i: nat)
    requires i < |list|
  {
    list[i] in prev && prev[list[i]] == Nth(list, (i as int) - 1)
  }

  ghost predicate Forwards(next: map<Id, Option<Id>>, list: seq<Id>) {
    forall i: nat :: i < |list| ==> LeadsOn(next, list, i)
  }

  ghost predicate Backwards(prev: map<Id, Option<Id>>, list: seq<Id>) {
    forall i: nat :: i < |list| ==> LeadsBack(prev, list, i)
  }

  lemma RemoveAtIs(list: seq<Id>, k: nat, i: nat)
    requires k < |list| && i + 1 < |list|
    ensures RemoveAt(list, k)[i] == if i < k then list[i] else list[i + 1]
  {
  }

  lemma NthRemoved(list: seq<Id>, k: nat, i: int)
    requires k < |list|
    ensures Nth(RemoveAt(list, k), i) == if i < k then Nth(list, i) else Nth(list, i + 1)
  {
  }

  lemma Distinct(list: seq<Id>, i: nat, j: nat)
    requires NoDup(list) && i < |list| && j < |list| && i != j
    ensures list[i] != list[j]
  {
  }

  lemma ForwardsUnlink(next: map<Id, Option<Id>>, list: seq<Id>, k: nat)
    requires Forwards(next, list) && NoDup(list) && k < |list|
    ensures Forwards(if k > 0 then next[list[k - 1] := Nth(list, k + 1)] else next, RemoveAt(list, k))
  {
    var l, next' := RemoveAt(list, k), if k > 0 then next[list[k - 1] := Nth(list, k + 1)] else next;
    forall i: nat | i < |l|
      ensures LeadsOn(next', l, i)
    {
      var j := if i < k then i else i + 1;
      RemoveAtIs(list, k, i);
      NthRemoved(list, k, i + 1);
      assert LeadsOn(next, list, j);
      if k > 0 && j != k - 1 {
        Distinct(list, j, k - 1);
      }
    }
  }

  lemma BackwardsUnlink(prev: map<Id, Option<Id>>, list: seq<Id>, k: nat)
    requires Backwards(prev, list) && NoDup(list) && k < |list|
    ensures var prev' := if k + 1 < |list| then prev[list[k + 1] := Nth(list, (k as int) - 1)] else prev;
            Backwards(prev', RemoveAt(list, k))
  {
    var l := RemoveAt(list, k);
    var prev' := if k + 1 < |list| then prev[list[k + 1] := Nth(list, (k as int) - 1)] else prev;
    forall i: nat | i < |l|
      ensures LeadsBack(prev', l, i)
    {
      var j := if i < k then i else i + 1;
      RemoveAtIs(list, k, i);
      NthRemoved(list, k, (i as int) - 1);
      assert LeadsBack(prev, list, j);
      if k + 1 < |list| && j != k + 1 {
        Distinct(list, j, k + 1);
      }
    }
  }

  lemma EndsUnlink(list: seq<Id>, k: nat)
    requires k < |list|
    ensures Nth(RemoveAt(list, k), 0) == if k > 0 then Nth(list, 0) else Nth(list, 1)
    ensures var l := RemoveAt(list, k);
            Nth(l, |l| - 1) == if k + 1 < |list| then Nth(list, |list| - 1) else Nth(list, |list| - 2)
  {
    NthRemoved(list, k, 0);
    NthRemoved(list, k, |list| - 2);
  }

  lemma ForwardsLink(next: map<Id, Option<Id>>, list: seq<Id>, id: Id)
    requires Forwards(next, list) && id !in list
    ensures Forwards(next[id := Nth(list, 0)], [id] + list)
  {
    var l, next' := [id] + list, next[id := Nth(list, 0)];
    forall i: nat | i < |l|
      ensures LeadsOn(next', l, i)
    {
      assert Nth(l, i + 1) == Nth(list, i);
      if i > 0 {
        assert l[i] == list[i - 1] && list[i - 1] in list;
        assert LeadsOn(next, list, i - 1);
      }
    }
  }

  lemma BackwardsLink(prev: map<Id, Option<Id>>, list: seq<Id>, id: Id)
    requires Backwards(prev, list) && NoDup(list) && id !in list
    ensures Backwards((if list != [] then prev[list[0] := Some(id)] else prev)[id := None], [id] + list)
  {
    var l, prev' := [id] + list, (if list != [] then prev[list[0] := Some(id)] else prev)[id := None];
    forall i: nat | i < |l|
      ensures LeadsBack(prev', l, i)
    {
      if i > 0 {
        assert l[i] == list[i - 1] && list[i - 1] in list && l[i - 1] == if i == 1 then id else list[i - 2];
        assert LeadsBack(prev, list, i - 1);
        if i > 1 {
          Distinct(list, i - 1, 0);
        }
      }
    }
  }

  lemma ForwardsAppend(next: map<Id, Option<Id>>, list: seq<Id>, id: Id)
    requires Forwards(next, list) && NoDup(list) && id !in list
    ensures Forwards((if list != [] then next[list[|list| - 1] := Some(id)] else next)[id := None], list + [id])
  {
    var l, next' := list + [id], (if list != [] then next[list[|list| - 1] := Some(id)] else next)[id := None];
    forall i: nat | i < |l|
      ensures LeadsOn(next', l, i)
    {
      if i < |list| {
        assert l[i] == list[i] && list[i] in list && l[i + 1] == if i + 1 < |list| then list[i + 1] else id;
        assert LeadsOn(next, list, i);
        if i + 1 < |list| {
          Distinct(list, i, |list| - 1);
        }
      }
    }
  }

  lemma BackwardsAppend(prev: map<Id, Option<Id>>, list: seq<Id>, id: Id)
    requires Backwards(prev, list) && id !in list
    ensures Backwards(prev[id := Nth(list, |list| - 1)], list + [id])
  {
    var l, prev' := list + [id], prev[id := Nth(list, |list| - 1)];
    forall i: nat | i < |l|
      ensures LeadsBack(prev', l, i)
    {
      assert Nth(l, (i as int) - 1) == Nth(list, (i as int) - 1);
      if i < |list| {
        assert l[i] == list[i] && list[i] in list;
        assert LeadsBack(prev, list, i);
      }
    }
  }

  class List {
    var prev: map<Id, Option<Id>>
    var next: map<Id, Option<Id>>
    var head: Option<Id>
    var tail: Option<Id>
    ghost var list: seq<Id>

    /** The pointers link the records of the list in both directions. */
    ghost predicate Valid()
      reads this
    {
      && NoDup(list) && head == Nth(list, 0) && tail == Nth(list, |list| - 1)
      && Forwards(next, list) && Backwards(prev, list)
    }

    constructor ()
      ensures Valid() && list == []
    {
      prev, next, head, tail, list := map[], map[], None, None, [];
    }

    /** cache_unlink: the others stay linked in their order. */
    method Unlink(id: Id)
      requires Valid() && id in list
      modifies this
      ensures Valid() && list == Without(old(list), id)
      ensures forall x :: x in list <==> x in old(list) && x != id
    {
      ghost var k := IndexOf(list, id);
      ForwardsUnlink(next, list, k);
      BackwardsUnlink(prev, list, k);
      EndsUnlink(list, k);
      assert LeadsOn(next, list, k) && LeadsBack(prev, list, k);
      var p, n := prev[id], next[id];
      if p.Some? {
        next := next[p.value := n];
      } else {
        head := n;
      }
      if n.Some? {
        prev := prev[n.value := p];
      } else {
        tail := p;
      }
      list := Without(list, id);
    }

    /** cache_link: the record is the youngest. */
    method Link(id: Id)
      requires Valid() && id !in list
      modifies this
      ensures Valid() && list == [id] + old(list)
    {
      ForwardsLink(next, list, id);
      BackwardsLink(prev, list, id);
      if head.Some? {
        prev := prev[head.value := Some(id)];
      }
      next := next[id := head];
      prev := prev[id := None];
      head := Some(id);
      if tail.None? {
        tail := Some(id);
      }
      list := [id] + list;
    }

    /** The links of cache_free: the record is the first to be reused. */
    method Append(id: Id)
      requires Valid() && id !in list
      modifies this
      ensures Valid() && list == old(list) + [id]
    {
      ForwardsAppend(next, list, id);
      BackwardsAppend(prev, list, id);
      if tail.Some? {
        next := next[tail.value := Some(id)];
      } else {
        head := Some(id);
      }
      prev := prev[id := tail];
      next := next[id := None];
      tail := Some(id);
      list := list + [id];
    }

    /** cache_unlink and cache_link, as a lookup promotes a record: it is the youngest, and the
        others keep their order. */
    method Promote(id: Id)
      requires Valid() && id in list
      modifies this
      ensures Valid() && list == [id] + Without(old(list), id)
      ensures forall x :: x in list <==> x in old(list)
    {
      Unlink(id);
      Link(id);
    }

    // ---------- The list under the changes of the cache ----------

    /** Entry i of chain b is dropped from the cache in state s: a pool record goes to the end. */
    method Drop(id: Id, inPool: bool, ghost s: State, ghost b: nat, ghost i: nat)
      requires Valid() && Inv(s) && list == s.lru && b < |s.table| && i < |s.table[b]| && id == s.table[b][i]
      requires inPool <==> id in s.pool
      modifies this
      ensures Valid() && (id in s.pool ==> id in s.lru && id in s.rec) && list == Dropped(s, b, i).lru
    {
      InChain(s, b, i);
      if inPool {
        Unlink(id);
        Append(id);
      }
    }

    /** A lookup in state s finds the record. */
    method Touch(id: Id, ghost s: State)
      requires Valid() && list == s.lru && id in s.lru
      modifies this
      ensures Valid() && list == Promoted(s, id).lru
    {
      Promote(id);
    }

    /** cache_insert takes the record at the end. */
    method Take(ghost s: State, ghost r: Rec) returns (id: Id)
      requires Valid() && list == s.lru && s.lru != []
      modifies this
      ensures Valid() && id == s.lru[|s.lru| - 1] && list == Taken(s, r).lru
    {
      id := tail.value;
      LastOut(list);
      Unlink(id);
    }

    /** cache_end_insert links the first uncommitted record in. */
    method Commit(id: Id, ghost s: State)
      requires Valid() && Inv(s) && list == s.lru && s.pending != [] && id == s.pending[0]
      modifies this
      ensures Valid() && Committable(s) && list == Committed(s).lru
    {
      Waiting(s);
      Link(id);
    }

    /** cache_start_insert and cache_end_insert give it back. */
    method Recover(id: Id, ghost s: State)
      requires Valid() && Inv(s) && list == s.lru && s.pending != [] && id == s.pending[0]
      modifies this
      ensures Valid() && Committable(s) && list == Recovered(s).lru
    {
      Waiting(s);
      Append(id);
    }
  }

  ghost predicate Committable(s: State) {
    && s.pending != [] && s.pending[0] in s.rec && |s.table| > 0
    && forall b, i :: 0 <= b < |s.table| && 0 <= i < |s.table[b]| ==> s.table[b][i] in s.rec
  }

  lemma Waiting(s: State)
    requires Inv(s) && s.pending != []
    ensures Committable(s) && s.pending[0] !in s.lru
  {
    InvMeans(s);
    ChainsHaveRecords(s);
    assert s.pending[0] in s.pending;
  }

  lemma LastOut(list: seq<Id>)
    requires NoDup(list) && list != []
    ensures Without(list, list[|list| - 1]) == list[..|list| - 1]
  {
    var k := IndexOf(list, list[|list| - 1]);
    assert k == |list| - 1;
  }
}
