/**
  The pool array and the circular query list of dnrd, with their pointers, proved against the
  states of QueryPool.
*/
module QueryList {
  import opened Common
  import opened QueryPool

  /** A query_t by its address; the list head is the static qlist. */
  type Node = nat
  const Head: Node := 0

  /** htons on a machine that stores the low byte first. */
  function Htons(x: int): int {
    x % 256 * 256 + x / 256
  }

  /** The i-th node of a list with these nodes, counted from the head and around to it. */
  function At(nodes: seq<Node>, i: nat): Node
    requires i <= |nodes| + 1
  {
    if i == 0 || i == |nodes| + 1 then Head else nodes[i - 1]
  }

  /** next and tail form the circular list of these nodes. */
  ghost predicate Chain(next: map<Node, Node>, tail: Node, nodes: seq<Node>) {
    && Head in next && (forall i :: 0 <= i < |nodes| ==> nodes[i] in next)
    && (forall i {:trigger next[At(nodes, i)]} :: 0 <= i <= |nodes| ==> next[At(nodes, i)] == At(nodes, i + 1))
    && tail == At(nodes, |nodes|)
  }

  ghost predicate OpenChain(next: map<Node, Node>, nodes: seq<Node>, u: nat) {
    true
  }

  /** The same for nodes without repetition, with the chain under a quantifier that only
      LinkedMeans opens, so that callers handle it as a name. */
  ghost predicate Linked(next: map<Node, Node>, tail: Node, nodes: seq<Node>) {
    && Head !in nodes && (forall i, j :: 0 <= i < j < |nodes| ==> nodes[i] != nodes[j])
    && Head in next
    && forall u: nat {:trigger OpenChain(next, nodes, u)} :: OpenChain(next, nodes, u) ==> Chain(next, tail, nodes)
  }

  lemma LinkedMeans(next: map<Node, Node>, tail: Node, nodes: seq<Node>)
    requires Linked(next, tail, nodes)
    ensures Chain(next, tail, nodes)
  {
    assert OpenChain(next, nodes, 0);
  }

  ghost function Contents(info: map<Node, Query>, nodes: seq<Node>): (l: seq<Query>)
    requires forall i :: 0 <= i < |nodes| ==> nodes[i] in info
    ensures |l| == |nodes| && forall i :: 0 <= i < |l| ==> l[i] == info[nodes[i]]
  {
    seq(|nodes|, i requires 0 <= i < |nodes| => info[nodes[i]])
  }

  /** Linking a node in after the tail. */
  lemma LinkLast(next: map<Node, Node>, tail: Node, nodes: seq<Node>, n: Node)
    requires Linked(next, tail, nodes) && n != Head && n !in nodes
    ensures tail in next && tail == At(nodes, |nodes|) && Linked(next[n := next[tail]][tail := n], n, nodes + [n])
  {
    LinkedMeans(next, tail, nodes);
    var next', nodes' := next[n := next[tail]][tail := n], nodes + [n];
    assert At(nodes, |nodes| + 1) == Head;
    forall i | 0 <= i <= |nodes'|
      ensures next'[At(nodes', i)] == At(nodes', i + 1)
    {
      if i <= |nodes| {
        assert At(nodes', i) == At(nodes, i);
        assert i < |nodes| ==> At(nodes, i) != tail;
      }
    }
  }

  /** The nodes of the list are different places of it. */
  lemma AtApart(nodes: seq<Node>, i: nat, j: nat)
    requires Head !in nodes && (forall i, j :: 0 <= i < j < |nodes| ==> nodes[i] != nodes[j]) && i <= |nodes|
      && j <= |nodes|
    ensures At(nodes, i) == At(nodes, j) ==> i == j
  {
  }

  lemma AtRemoved(nodes: seq<Node>, k: nat, i: nat)
    requires k < |nodes| && i <= |nodes|
    ensures At(RemoveAt(nodes, k), i) == if i <= k then At(nodes, i) else At(nodes, i + 1)
  {
  }

  lemma UnlinkStep(next: map<Node, Node>, tail: Node, nodes: seq<Node>, k: nat, i: nat)
    requires Linked(next, tail, nodes) && k < |nodes| && i < |nodes| && At(nodes, k) in next && nodes[k] in next
    ensures var next', nodes' := next[At(nodes, k) := next[nodes[k]]], RemoveAt(nodes, k);
            At(nodes', i) in next' && next'[At(nodes', i)] == At(nodes', i + 1)
  {
    LinkedMeans(next, tail, nodes);
    AtRemoved(nodes, k, i);
    AtRemoved(nodes, k, i + 1);
    AtApart(nodes, i, k);
    AtApart(nodes, i + 1, k);
    assert next[At(nodes, i)] == At(nodes, i + 1);
    assert next[At(nodes, i + 1)] == At(nodes, i + 2);
  }

  lemma RemovedApart(nodes: seq<Node>, k: nat)
    requires k < |nodes| && Head !in nodes && forall i, j :: 0 <= i < j < |nodes| ==> nodes[i] != nodes[j]
    ensures Head !in RemoveAt(nodes, k)
    ensures forall i, j :: 0 <= i < j < |nodes| - 1 ==> RemoveAt(nodes, k)[i] != RemoveAt(nodes, k)[j]
  {
  }

  /** Unlinking the node at k, which the cursor at k points before. */
  lemma UnlinkAt(next: map<Node, Node>, tail: Node, nodes: seq<Node>, k: nat)
    requires Linked(next, tail, nodes) && k < |nodes| && At(nodes, k) in next
    ensures next[At(nodes, k)] == nodes[k] && nodes[k] in next
    ensures Linked(next[At(nodes, k) := next[nodes[k]]], if tail == nodes[k] then At(nodes, k)
      else tail, RemoveAt(nodes, k))
    ensures At(RemoveAt(nodes, k), k) == At(nodes, k)
  {
    FoundBefore(next, tail, nodes, k);
    var c, nodes' := At(nodes, k), RemoveAt(nodes, k);
    var next', tail' := next[c := next[nodes[k]]], if tail == nodes[k] then c else tail;
    assert Chain(next', tail', nodes') by {
      forall i | 0 <= i <= |nodes'|
        ensures At(nodes', i) in next' && next'[At(nodes', i)] == At(nodes', i + 1)
      {
        UnlinkStep(next, tail, nodes, k, i);
      }
      LinkedMeans(next, tail, nodes);
      AtRemoved(nodes, k, |nodes'|);
      AtApart(nodes, |nodes|, k + 1);
      assert forall i :: 0 <= i < |nodes'| ==> At(nodes', i + 1) == nodes'[i];
    }
    RemovedApart(nodes, k);
  }

  lemma ContentsGrows(info: map<Node, Query>, nodes: seq<Node>, n: Node, q: Query)
    requires n !in nodes && forall i :: 0 <= i < |nodes| ==> nodes[i] in info
    ensures Contents(info[n := q], nodes + [n]) == Contents(info, nodes) + [q]
  {
  }

  class Queries {
    const maxSockets: nat
    const pool: array<int>
    var poolPtr: int
    var next: map<Node, Node>
    var info: map<Node, Query>
    var tail: Node
    var upstreamSockets: int
    var totalQueries: nat
    var totalTimeouts: nat
    ghost var nodes: seq<Node>

    ghost predicate Shape()
      reads this
    {
      && pool.Length == PoolSize && -1 <= poolPtr < PoolSize
      && Linked(next, tail, nodes) && (forall i :: 0 <= i < |nodes| ==> nodes[i] in info)
    }

    ghost function Value(): State
      requires Shape()
      reads this, pool
    {
      State(Contents(info, nodes), pool[..poolPtr + 1])
    }

    ghost predicate Valid()
      reads this, pool
    {
      && Shape() && Inv(Value())
      && upstreamSockets == |nodes| <= maxSockets <= PoolSize
    }

    /** query_init and qid_init_pool. */
    constructor (maxSockets: nat)
      requires maxSockets <= PoolSize
      ensures Valid() && this.maxSockets == maxSockets && Value() == State([], seq(PoolSize, i => i)) && fresh(pool)
    {
      this.maxSockets := maxSockets;
      var a := new int[PoolSize];
      for i := 0 to PoolSize
        invariant forall k :: 0 <= k < i ==> a[k] == k
      {
        a[i] := i;
      }
      pool := a;
      poolPtr := PoolSize - 1;
      next, info, tail, nodes := map[Head := Head], map[], Head, [];
      upstreamSockets, totalQueries, totalTimeouts := 0, 0, 0;
      new;
      assert pool[..poolPtr + 1] == seq(PoolSize, i => i);
      InitialInv();
    }

    /** qid_get; i is the random cell. */
    method QidGet(i: nat) returns (t: int)
      requires Shape() && i <= poolPtr
      modifies this`poolPtr, pool
      ensures Shape() && poolPtr == old(poolPtr) - 1
      ensures t == old(Value().free[i]) && Value() == old(Value()).(free := Drawn(old(Value().free), i))
    {
      ghost var free := pool[..poolPtr + 1];
      t := pool[i];
      pool[i] := pool[poolPtr % PoolSize];
      poolPtr := poolPtr - 1;
      assert pool[..poolPtr + 1] == Drawn(free, i);
    }

    /** qid_return. */
    method QidReturn(qid: int)
      requires Shape() && poolPtr + 1 < PoolSize
      modifies this`poolPtr, pool
      ensures Shape() && poolPtr == old(poolPtr) + 1
      ensures Value() == old(Value()).(free := old(Value().free) + [qid])
    {
      ghost var free := pool[..poolPtr + 1];
      poolPtr := poolPtr + 1;
      pool[poolPtr % PoolSize] := qid;
      assert pool[..poolPtr + 1] == free + [qid];
    }

    /** The place of a client id in the list: the cursor before it, or the last one. */
    method Find(clientQid: int) returns (p: Node, ghost k: nat)
      requires Shape()
      ensures k == FindClient(Value().list, clientQid, 0)
      ensures p == At(nodes, k) && p in next
    {
      p, k := Head, 0;
      FoundBefore(next, tail, nodes, k);
      while next[p] != Head
        invariant 0 <= k <= |nodes| && p == At(nodes, k) && p in next
        invariant next[p] == Head <==> k == |nodes|
        invariant FindClient(Value().list, clientQid, 0) == FindClient(Value().list, clientQid, k)
        decreases |nodes| - k
      {
        FoundBefore(next, tail, nodes, k);
        if info[next[p]].clientQid == clientQid {
          return;
        }
        p, k := next[p], k + 1;
        FoundBefore(next, tail, nodes, k);
      }
    }

    /** query_add of a client id that is in the list. */
    method Repeat(p: Node, ghost k: nat, now: int) returns (id: int)
      requires Valid() && k < |nodes| && p in next && p == At(nodes, k)
      modifies this`info
      ensures Valid() && Value() == Repeated(old(Value()), k, now) && id == Value().list[k].myQid
    {
      RepeatedInv(Value(), k, now);
      FoundBefore(next, tail, nodes, k);
      var q := info[next[p]];
      id := q.myQid;
      info := info[next[p] := q.(clientTime := now, clientCount := q.clientCount + 1)];
      assert Contents(info, nodes) == Repeated(old(Value()), k, now).list;
    }

    /** query_create and the rest of query_add, once memory and a socket are there: node is the
        new query_t and cell the random cell. */
    method Enter(node: Node, clientQid: int, now: int, ttl: int, cell: nat) returns (oldtail: Node, id: int)
      requires Valid() && node != Head && node !in nodes && cell <= poolPtr && |nodes| < maxSockets
      requires FindClient(Value().list, clientQid, 0) == |nodes|
      modifies this`upstreamSockets, this`poolPtr, this`info, this`next, this`tail, this`nodes, pool
      ensures Valid() && Value() == Entered(old(Value()), clientQid, now, ttl, cell)
      ensures oldtail == At(nodes, |nodes| - 1) && nodes == old(nodes) + [node] && id == Htons(old(Value().free[cell]))
    {
      ghost var s := Value();
      EnteredInv(s, clientQid, now, ttl, cell);
      LinkLast(next, tail, nodes, node);
      upstreamSockets := upstreamSockets + 1;
      var my := QidGet(cell);
      info := info[node := Query(my, clientQid, now, 1, ttl)];
      id := Htons(my);
      next := next[node := next[tail]][tail := node];
      oldtail := tail;
      tail := node;
      nodes := nodes + [node];
      ContentsGrows(old(info), old(nodes), node, info[node]);
    }

    /** query_add. malloc may give a node and socket may succeed; the answer is the node before
        the query and the id now in the message, or nothing if the query is dropped. */
    method Add(clientQid: int, now: int, ttl: int, malloc: Option<Node>, socket: bool, cell: nat)
      returns (prev: Option<Node>, id: int, ghost k: nat)
      requires Valid() && (malloc.Some? ==> malloc.value != Head && malloc.value !in nodes)
      requires poolPtr >= 0 ==> cell <= poolPtr
      modifies this`upstreamSockets, this`poolPtr, this`info, this`next, this`tail, this`nodes, pool
      ensures Valid()
        && Value() == Apply(old(Value()), QueryPool.Add(clientQid, now, ttl, malloc.Some? && socket, cell), maxSockets)
      ensures k == FindClient(Value().list, clientQid, 0) && (prev.Some? <==> k < |nodes|)
      ensures prev.Some? ==> prev.value == At(nodes, k)
      ensures prev.Some? ==>
        id == if |nodes| == |old(nodes)| then Value().list[k].myQid else Htons(Value().list[k].myQid)
    {
      var p;
      p, k := Find(clientQid);
      if next[p] != Head {
        FoundBefore(next, tail, nodes, k);
        id := Repeat(p, k, now);
        FindClientAt(Value().list, clientQid, k);
        return Some(p), id, k;
      }
      FoundBefore(next, tail, nodes, k);
      if upstreamSockets >= maxSockets || malloc.None? || !socket {
        return None, 0, k;
      }
      ghost var s := Value();
      var oldtail;
      oldtail, id := Enter(malloc.value, clientQid, now, ttl, cell);
      FindClientAt(Value().list, clientQid, k);
      prev := Some(oldtail);
    }

    /** The pointer part of query_delete_next. */
    method Unlink(q: Node, ghost k: nat) returns (tmp: Node)
      requires Shape() && k < |nodes| && q in next && q == At(nodes, k)
      modifies this`next, this`tail, this`nodes
      ensures Shape() && nodes == RemoveAt(old(nodes), k) && tmp == old(nodes)[k]
      ensures q in next && q == At(nodes, k)
      ensures Value() == old(Value()).(list := RemoveAt(old(Value().list), k))
    {
      ghost var s := Value();
      UnlinkAt(next, tail, nodes, k);
      tmp := next[q];
      next := next[q := next[next[q]]];
      if tail == tmp {
        tail := q;
      }
      nodes := RemoveAt(nodes, k);
      assert Contents(info, nodes) == RemoveAt(s.list, k);
    }

    /** query_delete_next with the query_destroy it calls. */
    method DeleteNext(q: Node, ghost k: nat)
      requires Valid() && k < |nodes| && q in next && q == At(nodes, k)
      modifies this`upstreamSockets, this`totalQueries, this`poolPtr, this`next, this`tail, this`nodes, pool
      ensures Valid() && Value() == Removed(old(Value()), k)
      ensures q in next && q == At(nodes, k) && totalQueries == old(totalQueries) + 1 && |nodes| == |old(nodes)| - 1
    {
      RemovedInv(Value(), k);
      var tmp := Unlink(q, k);
      QidReturn(info[tmp].myQid);
      upstreamSockets := upstreamSockets - 1;
      totalQueries := totalQueries + 1;
    }

    method AddTimeouts(count: nat)
      requires Valid()
      modifies this`totalTimeouts
      ensures Valid() && Value() == old(Value()) && totalTimeouts == old(totalTimeouts) + count
    {
      totalTimeouts := totalTimeouts + count;
    }

    /** The body of the loop of query_timeout: the query after q goes if it is expired, and the
        cursor moves on to what then follows. */
    method Visit(q: Node, ghost k: nat, now: int) returns (q': Node, gone: bool, ghost k': nat)
      requires Valid() && k < |nodes| && q in next && q == At(nodes, k)
      modifies this`upstreamSockets, this`totalQueries, this`poolPtr, this`info, this`next,
        this`tail, this`nodes, pool
      ensures Valid() && k' <= |nodes| && q' in next && q' == At(nodes, k') && (next[q'] == Head <==> k' == |nodes|)
      ensures |nodes| == |old(nodes)| - if gone then 1 else 0
      ensures !gone ==> k' == k + 1
      ensures TimedOut(Value(), now, k') == TimedOut(old(Value()), now, k)
    {
      FoundBefore(next, tail, nodes, k);
      gone := info[next[q]].clientTime < now - info[next[q]].ttl;
      if gone {
        DeleteNext(q, k);
        FoundBefore(next, tail, nodes, k);
      }
      q' := next[q];
      k' := if k < |nodes| then k + 1 else 0;
      FoundBefore(next, tail, nodes, k');
    }

    /** query_timeout at the moment now. */
    method Timeout(now: int)
      requires Valid()
      modifies this`upstreamSockets, this`totalQueries, this`totalTimeouts, this`poolPtr, this`info, this`next,
        this`tail, this`nodes, pool
      ensures Valid() && Value() == TimedOut(old(Value()), now, 0)
      ensures totalTimeouts == old(totalTimeouts) + |old(nodes)| - |nodes|
    {
      var count := 0;
      var q := Head;
      ghost var k := 0;
      FoundBefore(next, tail, nodes, k);
      while next[q] != Head
        invariant Valid() && 0 <= k <= |nodes| && q in next && q == At(nodes, k)
        invariant next[q] == Head <==> k == |nodes|
        invariant TimedOut(Value(), now, k) == TimedOut(old(Value()), now, 0)
        invariant count == |old(nodes)| - |nodes| && count >= 0 && totalTimeouts == old(totalTimeouts)
        decreases |nodes|, |nodes| - k
      {
        var gone;
        q, gone, k := Visit(q, k, now);
        if gone {
          count := count + 1;
        }
      }
      AddTimeouts(count);
    }
  }

  /** A cursor is at the last node exactly when its next is the head. */
  lemma FoundBefore(next: map<Node, Node>, tail: Node, nodes: seq<Node>, k: nat)
    requires Linked(next, tail, nodes) && k <= |nodes| && At(nodes, k) in next
    ensures next[At(nodes, k)] == At(nodes, k + 1) && At(nodes, k + 1) in next
    ensures next[At(nodes, k)] == Head <==> k == |nodes|
    ensures k < |nodes| ==> next[At(nodes, k)] == nodes[k]
  {
    LinkedMeans(next, tail, nodes);
  }

  lemma FindClientAt(list: seq<Query>, clientQid: int, k: nat)
    requires ClientsDistinct(list) && k < |list| && list[k].clientQid == clientQid
    ensures FindClient(list, clientQid, 0) == k
  {
  }

  /** A repeated query carries the same id to the server as the first one only if the two bytes
      of the id are equal: the first one is stored in network order and the second is not. */
  lemma RepeatedIdMatches(id: int)
    requires 0 <= id < PoolSize
    ensures id == Htons(id) <==> id % 256 == id / 256
  {
  }
}
