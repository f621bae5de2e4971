module Gf2Rank {
  // `computeRank` on bit matrices (section 2.5 of NIST SP 800-22 Rev. 1a): a forward pass that
  // pivots on the diagonal only, a backward pass, and a count of the non-zero rows.
  //
  // The specification is the row space: `Span` is the set of all sums of rows and the rank is
  // the r with |Span| = 2^r, which `DimensionIsUnique` ties to the size of every basis.
  // The code is right on every matrix of a shape exactly when `GoodShape` holds.

  import opened Common

  type Vec = seq<bool>

  // ---------- Vectors and row spaces ----------

  function Xor(u: Vec, v: Vec): (w: Vec)
    requires |u| == |v|
    ensures |w| == |u| && forall k :: 0 <= k < |u| ==> w[k] == (u[k] != v[k])
  {
    seq(|u|, k requires 0 <= k < |u| => u[k] != v[k])
  }

  function Zero(n: nat): (z: Vec)
    ensures |z| == n && forall k :: 0 <= k < n ==> !z[k]
  {
    seq(n, k => false)
  }

  predicate Width(rows: seq<Vec>, n: nat) {
    forall i :: 0 <= i < |rows| ==> |rows[i]| == n
  }

  ghost predicate Subspace(S: set<Vec>, n: nat) {
    && (forall u :: u in S ==> |u| == n)
    && Zero(n) in S
    && (forall u, v {:trigger Xor(u, v)} :: u in S && v in S ==> Xor(u, v) in S)
  }

  ghost predicate AllIn(rows: seq<Vec>, S: set<Vec>) {
    forall i :: 0 <= i < |rows| ==> rows[i] in S
  }

  /** S is the least subspace that contains every row. */
  ghost predicate IsSpan(S: set<Vec>, rows: seq<Vec>, n: nat) {
    && Subspace(S, n) && AllIn(rows, S)
    && forall U {:trigger AllIn(rows, U)} :: Subspace(U, n) && AllIn(rows, U) ==> S <= U
  }

  /** The row space: all sums of rows. */
  ghost function Span(rows: seq<Vec>, n: nat): (S: set<Vec>)
    requires Width(rows, n)
    ensures IsSpan(S, rows, n)
  {
    SpanExists(rows, n);
    var S :| IsSpan(S, rows, n);
    S
  }

  /** T is S moved by v. */
  ghost predicate IsShift(S: set<Vec>, v: Vec, n: nat, T: set<Vec>)
    requires |v| == n
  {
    && (forall u :: u in T ==> |u| == n)
    && (forall u {:trigger Xor(u, v)} :: |u| == n ==> (u in T <==> Xor(u, v) in S))
    && |T| == |S|
  }

  lemma {:induction false} ShiftExists(S: set<Vec>, v: Vec, n: nat) returns (T: set<Vec>)
    requires |v| == n && forall u :: u in S ==> |u| == n
    ensures IsShift(S, v, n, T)
    decreases |S|
  {
    if S == {} {
      T := {};
    } else {
      var x :| x in S;
      var T' := ShiftExists(S - {x}, v, n);
      T := T' + {Xor(x, v)};
      assert Xor(Xor(x, v), v) == x;
      forall u | |u| == n
        ensures u in T <==> Xor(u, v) in S
      {
        assert Xor(Xor(u, v), v) == u;
      }
    }
  }

  /** S moved by v. */
  ghost function Shifted(S: set<Vec>, v: Vec, n: nat): (T: set<Vec>)
    requires |v| == n && forall u :: u in S ==> |u| == n
    ensures IsShift(S, v, n, T)
  {
    assert exists T :: IsShift(S, v, n, T) by {
      var T := ShiftExists(S, v, n);
    }
    var T :| IsShift(S, v, n, T);
    T
  }

  /** A subspace together with its shift by v is a subspace. */
  lemma ExtendSubspace(S: set<Vec>, v: Vec, n: nat)
    requires Subspace(S, n) && |v| == n
    ensures Subspace(S + Shifted(S, v, n), n)
    ensures v in Shifted(S, v, n)
  {
    var T := Shifted(S, v, n);
    forall a, b | a in S + T && b in S + T
      ensures Xor(a, b) in S + T
    {
      var ab := Xor(a, b);
      assert Xor(Xor(a, v), Xor(b, v)) == ab;
      assert Xor(Xor(a, v), b) == Xor(ab, v);
      assert Xor(a, Xor(b, v)) == Xor(ab, v);
    }
    assert Xor(v, v) == Zero(n);
  }

  /** One more row adds the shift by that row. */
  lemma ExtendSpan(S: set<Vec>, init: seq<Vec>, v: Vec, n: nat)
    requires IsSpan(S, init, n) && |v| == n
    ensures IsSpan(S + Shifted(S, v, n), init + [v], n)
  {
    ExtendSubspace(S, v, n);
    forall U | Subspace(U, n) && AllIn(init + [v], U)
      ensures S + Shifted(S, v, n) <= U
    {
      assert AllIn(init, U) by {
        assert forall i :: 0 <= i < |init| ==> init[i] == (init + [v])[i];
      }
      assert v == (init + [v])[|init|];
      forall u | u in Shifted(S, v, n)
        ensures u in U
      {
        assert Xor(Xor(u, v), v) == u;
      }
    }
  }

  lemma {:induction false} SpanExists(rows: seq<Vec>, n: nat)
    requires Width(rows, n)
    ensures exists S :: IsSpan(S, rows, n)
    decreases |rows|
  {
    if rows == [] {
      assert Xor(Zero(n), Zero(n)) == Zero(n);
      assert IsSpan({Zero(n)}, rows, n);
    } else {
      var init, v := rows[..|rows| - 1], rows[|rows| - 1];
      SpanExists(init, n);
      var S :| IsSpan(S, init, n);
      ExtendSpan(S, init, v, n);
      assert init + [v] == rows;
    }
  }

  function Swap(a: seq<Vec>, i: nat, j: nat): seq<Vec>
    requires i < |a| && j < |a|
  {
    a[i := a[j]][j := a[i]]
  }

  /** Row j with row i added to it. */
  function Add(a: seq<Vec>, i: nat, j: nat, n: nat): (b: seq<Vec>)
    requires Width(a, n) && i < |a| && j < |a|
    ensures Width(b, n) && |b| == |a|
  {
    a[j := Xor(a[j], a[i])]
  }

  lemma SwapAllIn(a: seq<Vec>, i: nat, j: nat, S: set<Vec>)
    requires i < |a| && j < |a| && AllIn(a, S)
    ensures AllIn(Swap(a, i, j), S)
  {
    assert a[i] in S && a[j] in S;
  }

  lemma SwapShrinks(a: seq<Vec>, n: nat, i: nat, j: nat)
    requires Width(a, n) && i < |a| && j < |a|
    ensures Width(Swap(a, i, j), n) && Span(Swap(a, i, j), n) <= Span(a, n)
  {
    SwapAllIn(a, i, j, Span(a, n));
  }

  /** Swapping two rows keeps the row space. */
  lemma SpanSwap(a: seq<Vec>, n: nat, i: nat, j: nat)
    requires Width(a, n) && i < |a| && j < |a|
    ensures Width(Swap(a, i, j), n) && Span(Swap(a, i, j), n) == Span(a, n)
  {
    SwapShrinks(a, n, i, j);
    SwapShrinks(Swap(a, i, j), n, i, j);
    assert Swap(Swap(a, i, j), i, j) == a;
  }

  lemma AddAllIn(a: seq<Vec>, i: nat, j: nat, n: nat, S: set<Vec>)
    requires Width(a, n) && i < |a| && j < |a| && AllIn(a, S) && Subspace(S, n)
    ensures AllIn(Add(a, i, j, n), S)
  {
    assert a[i] in S && a[j] in S;
  }

  lemma AddShrinks(a: seq<Vec>, n: nat, i: nat, j: nat)
    requires Width(a, n) && i < |a| && j < |a|
    ensures Span(Add(a, i, j, n), n) <= Span(a, n)
  {
    AddAllIn(a, i, j, n, Span(a, n));
  }

  /** Adding one row to another keeps the row space. */
  lemma SpanAdd(a: seq<Vec>, n: nat, i: nat, j: nat)
    requires Width(a, n) && i < |a| && j < |a| && i != j
    ensures Span(Add(a, i, j, n), n) == Span(a, n)
  {
    var b := Add(a, i, j, n);
    AddShrinks(a, n, i, j);
    AddShrinks(b, n, i, j);
    assert Xor(b[j], b[i]) == a[j];
    assert Add(b, i, j, n) == a;
  }

  // ---------- Dimension ----------

  lemma {:induction false} Pow2Injective(a: nat, b: nat)
    requires Pow2(a) == Pow2(b)
    ensures a == b
  {
    if a > 0 && b > 0 {
      Pow2Injective(a - 1, b - 1);
    }
  }

  /** r is the dimension of the row space. */
  ghost predicate IsRank(r: int, rows: seq<Vec>, n: nat)
    requires Width(rows, n)
  {
    r >= 0 && |Span(rows, n)| == Pow2(r)
  }

  /** No row is a sum of the rows before it. */
  ghost predicate Independent(rows: seq<Vec>, n: nat)
    requires Width(rows, n)
  {
    rows != [] ==>
      var init := rows[..|rows| - 1];
      Independent(init, n) && rows[|rows| - 1] !in Span(init, n)
  }

  lemma ExtendSize(S: set<Vec>, v: Vec, n: nat)
    requires Subspace(S, n) && |v| == n
    ensures v !in S ==> |S + Shifted(S, v, n)| == 2 * |S|
    ensures v in S ==> S + Shifted(S, v, n) == S
  {
    var T := Shifted(S, v, n);
    if v in S {
      forall u | u in T
        ensures u in S
      {
        assert Xor(Xor(u, v), v) == u;
      }
    } else {
      forall u | u in S
        ensures u !in T
      {
        assert Xor(u, Xor(u, v)) == v;
      }
      assert S !! T;
    }
  }

  /** A row outside the span of the others doubles the space; one inside leaves it. */
  lemma SpanExtend(rows: seq<Vec>, v: Vec, n: nat)
    requires Width(rows, n) && |v| == n
    ensures v !in Span(rows, n) ==> |Span(rows + [v], n)| == 2 * |Span(rows, n)|
    ensures v in Span(rows, n) ==> Span(rows + [v], n) == Span(rows, n)
  {
    var S := Span(rows, n);
    ExtendSize(S, v, n);
    ExtendSpan(S, rows, v, n);
    assert Span(rows + [v], n) == S + Shifted(S, v, n);
  }

  lemma EmptySpan(n: nat)
    ensures Span([], n) == {Zero(n)}
  {
    assert Xor(Zero(n), Zero(n)) == Zero(n);
    assert Subspace({Zero(n)}, n) && AllIn([], {Zero(n)});
  }

  lemma EmptyRank(n: nat)
    ensures IsRank(0, [], n)
  {
    EmptySpan(n);
  }

  lemma RankNext(rows: seq<Vec>, v: Vec, n: nat, r: nat)
    requires Width(rows, n) && |v| == n && IsRank(r, rows, n)
    ensures IsRank(if v in Span(rows, n) then r else r + 1, rows + [v], n)
  {
    SpanExtend(rows, v, n);
  }

  /** Independent rows span a space of exactly their number of dimensions. */
  lemma {:induction false} IndependentSize(rows: seq<Vec>, n: nat)
    requires Width(rows, n) && Independent(rows, n)
    ensures |Span(rows, n)| == Pow2(|rows|)
    decreases |rows|
  {
    if rows == [] {
      EmptySpan(n);
    } else {
      var init, v := rows[..|rows| - 1], rows[|rows| - 1];
      assert init + [v] == rows;
      IndependentSize(init, n);
      SpanExtend(init, v, n);
    }
  }

  /** The rank is the length of every basis of the row space. */
  lemma DimensionIsUnique(rows: seq<Vec>, basis: seq<Vec>, n: nat, r: int)
    requires Width(rows, n) && Width(basis, n)
    requires Independent(basis, n) && Span(basis, n) == Span(rows, n)
    ensures IsRank(r, rows, n) <==> r == |basis|
  {
    IndependentSize(basis, n);
    if IsRank(r, rows, n) {
      Pow2Injective(r, |basis|);
    }
  }

  // ---------- Row operations ----------

  /** Row i is added to every row j with lo <= j < hi that has a one in column i. */
  ghost function Eliminate(a: seq<Vec>, n: nat, i: nat, lo: nat, hi: nat): (b: seq<Vec>)
    requires Width(a, n) && i < |a| && i < n && hi <= |a| && !(lo <= i < hi)
    ensures |b| == |a| && Width(b, n)
    ensures forall j :: 0 <= j < |a| ==> b[j] == if lo <= j < hi && a[j][i] then Xor(a[j], a[i]) else a[j]
  {
    seq(|a|, j requires 0 <= j < |a| => if lo <= j < hi && a[j][i] then Xor(a[j], a[i]) else a[j])
  }

  lemma EliminateNext(a: seq<Vec>, n: nat, i: nat, lo: nat, hi: nat)
    requires Width(a, n) && i < |a| && i < n && lo < hi <= |a| && !(lo <= i < hi)
    ensures Eliminate(a, n, i, lo, hi)
         == if a[hi - 1][i] then Add(Eliminate(a, n, i, lo, hi - 1), i, hi - 1, n) else Eliminate(a, n, i, lo, hi - 1)
  {
  }

  /** Elimination keeps the row space. */
  lemma {:induction false} SpanEliminate(a: seq<Vec>, n: nat, i: nat, lo: nat, hi: nat)
    requires Width(a, n) && i < |a| && i < n && hi <= |a| && !(lo <= i < hi)
    ensures Span(Eliminate(a, n, i, lo, hi), n) == Span(a, n)
    decreases hi
  {
    if hi <= lo {
      assert Eliminate(a, n, i, lo, hi) == a;
    } else {
      SpanEliminate(a, n, i, lo, hi - 1);
      SpanEliminateNext(a, n, i, lo, hi);
    }
  }

  lemma SpanEliminateNext(a: seq<Vec>, n: nat, i: nat, lo: nat, hi: nat)
    requires Width(a, n) && i < |a| && i < n && lo < hi <= |a| && !(lo <= i < hi)
    ensures Span(Eliminate(a, n, i, lo, hi), n) == Span(Eliminate(a, n, i, lo, hi - 1), n)
  {
    EliminateNext(a, n, i, lo, hi);
    if a[hi - 1][i] {
      SpanAdd(Eliminate(a, n, i, lo, hi - 1), n, i, hi - 1);
    }
  }

  /** The rows a call has not reached yet, and its own. */
  lemma Unreached(a: seq<Vec>, n: nat, i: nat, lo: nat, hi: nat, j: nat)
    requires Width(a, n) && i < |a| && i < n && hi <= |a| && !(lo <= i < hi) && j < |a| && !(lo <= j < hi)
    ensures Eliminate(a, n, i, lo, hi)[i] == a[i] && Eliminate(a, n, i, lo, hi)[j] == a[j]
  {
  }

  lemma SpanSwapEliminate(a: seq<Vec>, n: nat, i: nat, k: nat, lo: nat, hi: nat)
    requires Width(a, n) && i < |a| && k < |a| && i < n && hi <= |a| && !(lo <= i < hi)
    ensures Width(Swap(a, i, k), n)
    ensures Span(Eliminate(Swap(a, i, k), n, i, lo, hi), n) == Span(a, n)
  {
    SpanSwap(a, n, i, k);
    SpanEliminate(Swap(a, i, k), n, i, lo, hi);
  }

  // ---------- What the two passes establish ----------

  /** Columns before c are zero below the diagonal. */
  ghost predicate Upper(a: seq<Vec>, n: nat, c: nat)
    requires Width(a, n) && c <= n
  {
    forall r, j :: 0 <= j < c && j < r < |a| ==> !a[r][j]
  }

  /** A pivot clears its column below the diagonal. */
  lemma ForwardStep(a: seq<Vec>, n: nat, i: nat)
    requires Width(a, n) && i < |a| && i < n && Upper(a, n, i) && a[i][i]
    ensures Upper(Eliminate(a, n, i, i + 1, |a|), n, i + 1)
    ensures Span(Eliminate(a, n, i, i + 1, |a|), n) == Span(a, n)
  {
    SpanEliminate(a, n, i, i + 1, |a|);
  }

  lemma ForwardSwap(a: seq<Vec>, n: nat, i: nat, k: nat)
    requires Width(a, n) && i < k < |a| && i < n && Upper(a, n, i) && a[k][i]
    ensures Width(Swap(a, i, k), n) && Upper(Swap(a, i, k), n, i) && Swap(a, i, k)[i][i]
    ensures Span(Swap(a, i, k), n) == Span(a, n)
  {
    SpanSwap(a, n, i, k);
  }

  lemma ForwardNoPivot(a: seq<Vec>, n: nat, i: nat)
    requires Width(a, n) && i < |a| && i < n && Upper(a, n, i)
    requires forall r :: i < r < |a| ==> !a[r][i]
    ensures Upper(a, n, i + 1)
  {
  }

  predicate Null(v: Vec) {
    forall c :: 0 <= c < |v| ==> !v[c]
  }

  /** Row r is zero, or its last one is on the diagonal. */
  ghost predicate Finished(v: Vec, r: nat)
    requires r < |v|
  {
    Null(v) || (v[r] && forall c :: r < c < |v| ==> !v[c])
  }

  ghost predicate AllFinished(a: seq<Vec>, n: nat)
    requires Width(a, n) && |a| <= n
  {
    forall r :: 0 <= r < |a| ==> Finished(a[r], r)
  }

  /** The backward pass is done with the rows after i: they are finished, and the rows up to i
      are zero in the columns after i and left of the diagonal. */
  ghost predicate Backward(a: seq<Vec>, n: nat, i: nat)
    requires Width(a, n) && i < n == |a|
  {
    && (forall r, c :: 0 <= r <= i && (0 <= c < r || i < c < n) ==> !a[r][c])
    && (forall r :: i < r < n ==> Finished(a[r], r))
  }

  lemma BackwardStep(a: seq<Vec>, n: nat, i: nat)
    requires Width(a, n) && 0 < i < n == |a| && Backward(a, n, i) && a[i][i]
    ensures Backward(Eliminate(a, n, i, 0, i), n, i - 1)
  {
  }

  /** When the diagonal entry is missing the row is already zero, so that the row swapped in
      may be anything: the row it leaves behind is the zero one. */
  lemma BackwardSwapStep(a: seq<Vec>, n: nat, i: nat, k: nat)
    requires Width(a, n) && 0 <= k < i < n == |a| && Backward(a, n, i) && !a[i][i] && a[k][i]
    requires forall r :: k < r < i ==> !a[r][i]
    ensures Null(a[i])
    ensures Width(Swap(a, i, k), n) && Backward(Eliminate(Swap(a, i, k), n, i, 0, i), n, i - 1)
  {
    assert Null(a[i]);
    var b := Swap(a, i, k);
    var e := Eliminate(b, n, i, 0, i);
    assert b[i] == a[k] && b[k] == a[i];
    assert e[i] == b[i];
    forall r, c | 0 <= r <= i - 1 && (0 <= c < r || i - 1 < c < n)
      ensures !e[r][c]
    {
      assert r > k ==> b[r] == a[r];
    }
    assert Finished(e[i], i);
  }

  lemma BackwardNoPivot(a: seq<Vec>, n: nat, i: nat)
    requires Width(a, n) && 0 < i < n == |a| && Backward(a, n, i)
    requires forall r :: 0 <= r <= i ==> !a[r][i]
    ensures Backward(a, n, i - 1)
  {
    assert Null(a[i]);
  }

  // ---------- The count is the rank ----------

  /** How many of the first k rows are zero. */
  function ZeroRows(a: seq<Vec>, k: nat): (z: nat)
    requires k <= |a|
    ensures z <= k
  {
    if k == 0 then 0 else ZeroRows(a, k - 1) + if Null(a[k - 1]) then 1 else 0
  }

  /** A column that is zero in every row is zero in every sum of rows. */
  lemma SpanStaysLeft(rows: seq<Vec>, n: nat, c: nat)
    requires Width(rows, n) && c < n
    requires forall i :: 0 <= i < |rows| ==> !rows[i][c]
    ensures forall u :: u in Span(rows, n) ==> !u[c]
  {
    var U := set u | u in Span(rows, n) && !u[c];
    assert Subspace(U, n) && AllIn(rows, U);
  }

  /** A finished row is a sum of the finished rows before it only if it is zero. */
  lemma FinishedRow(init: seq<Vec>, v: Vec, n: nat)
    requires Width(init, n) && |init| < n == |v| && Finished(v, |init|)
    requires forall r :: 0 <= r < |init| ==> Finished(init[r], r)
    ensures v in Span(init, n) <==> Null(v)
  {
    SpanStaysLeft(init, n, |init|);
    if Null(v) {
      NullInSpan(init, v, n);
    }
  }

  lemma NullInSpan(rows: seq<Vec>, v: Vec, n: nat)
    requires Width(rows, n) && |v| == n && Null(v)
    ensures v in Span(rows, n)
  {
    assert v == Zero(n);
  }

  /** So the rows that are not zero are a basis, and counting them gives the rank. */
  lemma {:induction false} FinishedCount(a: seq<Vec>, n: nat, k: nat)
    requires Width(a, n) && k <= |a| <= n && AllFinished(a, n)
    ensures IsRank(k - ZeroRows(a, k), a[..k], n)
    decreases k
  {
    if k == 0 {
      EmptyRank(n);
    } else {
      FinishedCount(a, n, k - 1);
      FinishedRow(a[..k - 1], a[k - 1], n);
      RankNext(a[..k - 1], a[k - 1], n, k - 1 - ZeroRows(a, k - 1));
      assert a[..k - 1] + [a[k - 1]] == a[..k];
    }
  }

  // ---------- The code ----------

  ghost function Rows(A: array2<bool>): (a: seq<Vec>)
    reads A
    ensures |a| == A.Length0 && Width(a, A.Length1)
    ensures forall i, j :: 0 <= i < A.Length0 && 0 <= j < A.Length1 ==> a[i][j] == A[i, j]
  {
    seq(A.Length0, i requires 0 <= i < A.Length0 reads A =>
      seq(A.Length1, j requires 0 <= j < A.Length1 reads A => A[i, j]))
  }

  /** Nothing is set before column lo. */
  ghost predicate ZeroBefore(v: Vec, lo: nat) {
    forall k :: 0 <= k < lo && k < |v| ==> !v[k]
  }

  lemma SameRows(a: seq<Vec>, b: seq<Vec>, n: nat)
    requires Width(a, n) && Width(b, n) && |a| == |b|
    requires forall i, j :: 0 <= i < |a| && 0 <= j < n ==> a[i][j] == b[i][j]
    ensures a == b
  {
    assert forall i :: 0 <= i < |a| ==> a[i] == b[i];
  }

  method SwapRows(A: array2<bool>, i: nat, index: nat)
    requires i < A.Length0 && index < A.Length0 && i != index
    modifies A
    ensures Rows(A) == Swap(old(Rows(A)), i, index)
  {
    var Q := A.Length1;
    for p := 0 to Q
      invariant forall r, c :: 0 <= r < A.Length0 && 0 <= c < Q ==>
                  A[r, c] == old(A[if c < p && r == i then index else if c < p && r == index then i else r, c])
    {
      var temp := A[i, p];
      A[i, p] := A[index, p];
      A[index, p] := temp;
    }
    SameRows(Rows(A), Swap(old(Rows(A)), i, index), Q);
  }

  /** The innermost loop: row j takes row i from column lo on, row i being zero before lo. */
  method AddRow(A: array2<bool>, i: nat, j: nat, lo: nat)
    requires i < A.Length0 && j < A.Length0 && i != j && lo <= A.Length1
    requires ZeroBefore(Rows(A)[i], lo)
    modifies A
    ensures Rows(A) == Add(old(Rows(A)), i, j, A.Length1)
  {
    var Q := A.Length1;
    for k := lo to Q
      invariant forall r, c :: 0 <= r < A.Length0 && 0 <= c < Q ==>
                  A[r, c] == if r == j && c < k then old(A[r, c]) != old(A[i, c]) else old(A[r, c])
    {
      A[j, k] := A[j, k] != A[i, k];
    }
    SameRows(Rows(A), Add(old(Rows(A)), i, j, Q), Q);
  }

  /** perform_elementary_row_operations, case 0. */
  method EliminateBelow(A: array2<bool>, i: nat)
    requires i < A.Length0 && i < A.Length1
    requires ZeroBefore(Rows(A)[i], i)
    modifies A
    ensures Rows(A) == Eliminate(old(Rows(A)), A.Length1, i, i + 1, A.Length0)
  {
    ghost var a := Rows(A);
    for j := i + 1 to A.Length0
      invariant Rows(A) == Eliminate(a, A.Length1, i, i + 1, j)
    {
      Unreached(a, A.Length1, i, i + 1, j, j);
      EliminateNext(a, A.Length1, i, i + 1, j + 1);
      if A[j, i] {
        AddRow(A, i, j, i);
      }
    }
  }

  /** perform_elementary_row_operations, case 1. */
  method EliminateAbove(A: array2<bool>, i: nat)
    requires i < A.Length0 && i < A.Length1
    modifies A
    ensures Rows(A) == Eliminate(old(Rows(A)), A.Length1, i, 0, i)
  {
    ghost var a := Rows(A);
    var j := i - 1;
    while j >= 0
      invariant -1 <= j < i
      invariant Rows(A) == Eliminate(a, A.Length1, i, j + 1, i)
    {
      assert Rows(A)[j] == a[j] && Rows(A)[i] == a[i];
      if A[j, i] {
        AddRow(A, i, j, 0);
      }
      j := j - 1;
    }
  }

  /** find_unit_element_and_swap, case 0. */
  method FindBelowAndSwap(A: array2<bool>, i: nat) returns (found: bool, ghost k: nat)
    requires i < A.Length0 && i < A.Length1
    modifies A
    ensures found ==> i < k < A.Length0 && old(A[k, i]) && Rows(A) == Swap(old(Rows(A)), i, k)
    ensures !found ==> Rows(A) == old(Rows(A)) && forall r :: i < r < A.Length0 ==> !A[r, i]
  {
    var index := i + 1;
    while index < A.Length0 && !A[index, i]
      invariant i < index <= A.Length0
      invariant forall r :: i < r < index ==> !A[r, i]
    {
      index := index + 1;
    }
    found, k := index < A.Length0, index;
    if found {
      SwapRows(A, i, index);
    }
  }

  /** find_unit_element_and_swap, case 1. */
  method FindAboveAndSwap(A: array2<bool>, i: nat) returns (found: bool, ghost k: int)
    requires i < A.Length0 && i < A.Length1
    modifies A
    ensures found ==> 0 <= k < i && old(A[k, i]) && Rows(A) == Swap(old(Rows(A)), i, k)
    ensures found ==> forall r :: k < r < i ==> !old(A[r, i])
    ensures !found ==> Rows(A) == old(Rows(A)) && forall r :: 0 <= r < i ==> !A[r, i]
  {
    var index := i - 1;
    while index >= 0 && !A[index, i]
      invariant -1 <= index < i
      invariant forall r :: index < r < i ==> !A[r, i]
    {
      index := index - 1;
    }
    found, k := index >= 0, index;
    if found {
      SwapRows(A, i, index);
    }
  }

  method DetermineRank(A: array2<bool>, m: nat) returns (rank: int)
    ensures rank == m - ZeroRows(Rows(A), A.Length0)
  {
    rank := m;
    ghost var a := Rows(A);
    for i := 0 to A.Length0
      invariant rank == m - ZeroRows(a, i)
    {
      var allZeroes := true;
      var j := 0;
      while j < A.Length1
        invariant 0 <= j <= A.Length1
        invariant allZeroes
        invariant forall c :: 0 <= c < j ==> !A[i, c]
      {
        if A[i, j] {
          allZeroes := false;
          break;
        }
        j := j + 1;
      }
      assert allZeroes <==> Null(a[i]) by {
        if allZeroes {
          assert forall c :: 0 <= c < A.Length1 ==> a[i][c] == A[i, c];
        } else {
          assert a[i][j] == A[i, j];
        }
      }
      if allZeroes {
        rank := rank - 1;
      }
    }
  }

  function Min(a: nat, b: nat): nat {
    if a > b then b else a
  }

  /** No row has a one before column m. */
  ghost predicate Blank(a: seq<Vec>, n: nat, m: nat)
    requires Width(a, n) && m <= n
  {
    forall r, c :: 0 <= r < |a| && 0 <= c < m ==> !a[r][c]
  }

  method ForwardPass(A: array2<bool>)
    modifies A
    ensures Span(Rows(A), A.Length1) == Span(old(Rows(A)), A.Length1)
    ensures A.Length0 == A.Length1 > 0 ==> Upper(Rows(A), A.Length1, A.Length1 - 1)
    ensures Blank(old(Rows(A)), A.Length1, Min(A.Length0, A.Length1)) ==> Rows(A) == old(Rows(A))
  {
    var m := Min(A.Length0, A.Length1);
    ghost var a0, S := Rows(A), Span(Rows(A), A.Length1);
    var i := 0;
    while i + 1 < m
      invariant 0 <= i && (m > 0 ==> i <= m - 1) && (m == 0 ==> i == 0)
      invariant Span(Rows(A), A.Length1) == S
      invariant Upper(Rows(A), A.Length1, i)
      invariant Blank(a0, A.Length1, m) ==> Rows(A) == a0
    {
      ForwardPassStep(A, i);
      i := i + 1;
    }
  }

  /** The body of the forward loop. */
  method ForwardPassStep(A: array2<bool>, i: nat)
    requires i < A.Length0 && i < A.Length1 && Upper(Rows(A), A.Length1, i)
    modifies A
    ensures Span(Rows(A), A.Length1) == Span(old(Rows(A)), A.Length1)
    ensures Upper(Rows(A), A.Length1, i + 1)
    ensures Blank(old(Rows(A)), A.Length1, Min(A.Length0, A.Length1)) ==> Rows(A) == old(Rows(A))
  {
    ghost var a := Rows(A);
    if A[i, i] {
      assert a[i][i];
      ForwardEliminate(A, i);
    } else {
      ghost var k;
      var found;
      found, k := FindBelowAndSwap(A, i);
      if found {
        assert a[k][i];
        ForwardSwap(a, A.Length1, i, k);
        ForwardEliminate(A, i);
      } else {
        ForwardNoPivot(a, A.Length1, i);
      }
    }
  }

  /** Elimination below a pivot, with what it does to the row space and the triangle. */
  method ForwardEliminate(A: array2<bool>, i: nat)
    requires i < A.Length0 && i < A.Length1 && Upper(Rows(A), A.Length1, i) && Rows(A)[i][i]
    modifies A
    ensures Span(Rows(A), A.Length1) == Span(old(Rows(A)), A.Length1)
    ensures Upper(Rows(A), A.Length1, i + 1)
  {
    ghost var a := Rows(A);
    EliminateBelow(A, i);
    ForwardStep(a, A.Length1, i);
  }

  method BackwardPass(A: array2<bool>)
    modifies A
    ensures Span(Rows(A), A.Length1) == Span(old(Rows(A)), A.Length1)
    ensures A.Length0 == A.Length1 > 0 && Upper(old(Rows(A)), A.Length1, A.Length1 - 1)
        ==> AllFinished(Rows(A), A.Length1)
    ensures Blank(old(Rows(A)), A.Length1, Min(A.Length0, A.Length1)) ==> Rows(A) == old(Rows(A))
  {
    var m := Min(A.Length0, A.Length1);
    ghost var a0, S := Rows(A), Span(Rows(A), A.Length1);
    ghost var triangular := A.Length0 == A.Length1 > 0 && Upper(a0, A.Length1, A.Length1 - 1);
    var i := m - 1;
    while i > 0
      invariant i < m && (m > 0 ==> i >= 0)
      invariant Span(Rows(A), A.Length1) == S
      invariant triangular ==> Backward(Rows(A), A.Length1, i)
      invariant Blank(a0, A.Length1, m) ==> Rows(A) == a0
    {
      BackwardPassStep(A, i, triangular);
      i := i - 1;
    }
    if triangular {
      BackwardDone(Rows(A), A.Length1);
    }
  }

  lemma BackwardDone(a: seq<Vec>, n: nat)
    requires Width(a, n) && 0 < n == |a| && Backward(a, n, 0)
    ensures AllFinished(a, n)
  {
    if !a[0][0] {
      assert Null(a[0]);
    }
  }

  /** The body of the backward loop. */
  method BackwardPassStep(A: array2<bool>, i: nat, ghost triangular: bool)
    requires 0 < i < A.Length0 && i < A.Length1
    requires triangular ==> A.Length0 == A.Length1 && Backward(Rows(A), A.Length1, i)
    modifies A
    ensures Span(Rows(A), A.Length1) == Span(old(Rows(A)), A.Length1)
    ensures triangular ==> Backward(Rows(A), A.Length1, i - 1)
    ensures Blank(old(Rows(A)), A.Length1, Min(A.Length0, A.Length1)) ==> Rows(A) == old(Rows(A))
  {
    var Q := A.Length1;
    ghost var a := Rows(A);
    if A[i, i] {
      if triangular {
        BackwardStep(a, Q, i);
      }
      SpanEliminate(a, Q, i, 0, i);
      EliminateAbove(A, i);
    } else {
      ghost var k;
      var found;
      found, k := FindAboveAndSwap(A, i);
      if found {
        if triangular {
          assert forall r :: k < r < i ==> !a[r][i];
          BackwardSwapStep(a, Q, i, k);
        }
        SpanSwapEliminate(a, Q, i, k, 0, i);
        EliminateAbove(A, i);
      } else {
        assert forall r :: 0 <= r <= i ==> a[r][i] == A[r, i];
        if triangular {
          BackwardNoPivot(a, Q, i);
        }
      }
    }
  }

  /** The shapes for which the count is the rank of every matrix. */
  predicate GoodShape(M: nat, Q: nat) {
    M == Q || M == 0 || (M == 1 && Q >= 1)
  }

  /** computeRank. Both passes keep the row space. The result is the rank of every matrix of a
      good shape, and of every other shape there is a matrix whose rank it is not. */
  method ComputeRank(A: array2<bool>) returns (rank: int)
    modifies A
    ensures Span(Rows(A), A.Length1) == Span(old(Rows(A)), A.Length1)
    ensures A.Length0 == A.Length1 ==> AllFinished(Rows(A), A.Length1)
    ensures GoodShape(A.Length0, A.Length1) ==> IsRank(rank, old(Rows(A)), A.Length1)
    ensures !GoodShape(A.Length0, A.Length1) && old(Rows(A)) == BadMatrix(A.Length0, A.Length1)
        ==> !IsRank(rank, old(Rows(A)), A.Length1)
  {
    ghost var a0 := Rows(A);
    var m := Min(A.Length0, A.Length1);
    ForwardPass(A);
    BackwardPass(A);
    ghost var a := Rows(A);
    rank := DetermineRank(A, m);
    CountIsRank(a0, a, A.Length1);
  }

  /** What the count of the non-zero rows says about the matrix before the passes. */
  lemma CountIsRank(a0: seq<Vec>, a: seq<Vec>, n: nat)
    requires Width(a0, n) && Width(a, n) && |a| == |a0| && Span(a, n) == Span(a0, n)
    requires |a| == n ==> AllFinished(a, n)
    requires Blank(a0, n, Min(|a0|, n)) ==> a == a0
    ensures GoodShape(|a|, n) ==> IsRank(Min(|a|, n) - ZeroRows(a, |a|), a0, n)
    ensures !GoodShape(|a|, n) && a0 == BadMatrix(|a|, n) ==> !IsRank(Min(|a|, n) - ZeroRows(a, |a|), a0, n)
  {
    if |a| == n {
      FinishedCount(a, n, |a|);
      assert a[..|a|] == a;
    } else if GoodShape(|a|, n) {
      SmallRank(a, n);
    } else if a0 == BadMatrix(|a|, n) {
      BadMatrixRank(|a|, n);
    }
  }

  lemma SmallRank(a: seq<Vec>, n: nat)
    requires Width(a, n) && |a| <= 1
    ensures IsRank(|a| - ZeroRows(a, |a|), a, n)
  {
    EmptyRank(n);
    EmptySpan(n);
    if |a| == 1 {
      assert a == [] + [a[0]];
      RankNext([], a[0], n, 0);
      assert Null(a[0]) <==> a[0] == Zero(n);
      assert ZeroRows(a, 0) == 0;
    }
  }

  /** A matrix on which the count goes wrong: all zero when there are more rows than columns,
      and otherwise two equal rows with their one in the last column, which no pass visits. */
  function BadMatrix(M: nat, Q: nat): (a: seq<Vec>)
    ensures |a| == M && Width(a, Q)
    ensures forall i :: 0 <= i < M ==> a[i] == if M < Q && i < 2 then Unit(Q) else Zero(Q)
  {
    var a := seq(M, i requires 0 <= i < M => if M < Q && i < 2 then Unit(Q) else Zero(Q));
    assert forall i :: 0 <= i < M ==> a[i] == if M < Q && i < 2 then Unit(Q) else Zero(Q);
    a
  }

  function Unit(n: nat): (u: Vec)
    requires n > 0
    ensures |u| == n && u[n - 1] && forall c :: 0 <= c < n - 1 ==> !u[c]
  {
    Zero(n - 1) + [true]
  }

  lemma {:induction false} BadMatrixZeroRows(M: nat, Q: nat, k: nat)
    requires k <= M
    ensures ZeroRows(BadMatrix(M, Q), k) == if M < Q then k - Min(k, 2) else k
    decreases k
  {
    if k > 0 {
      BadMatrixZeroRows(M, Q, k - 1);
      assert M < Q ==> !Null(Unit(Q)) by {
        if M < Q {
          assert Unit(Q)[Q - 1];
        }
      }
    }
  }

  /** Its rank is one when it has more columns than rows. */
  lemma {:induction false} BadMatrixPrefix(M: nat, Q: nat, k: nat)
    requires 1 <= k <= M < Q
    ensures IsRank(1, BadMatrix(M, Q)[..k], Q)
    decreases k
  {
    var a := BadMatrix(M, Q);
    var init, v := a[..k - 1], a[k - 1];
    assert init + [v] == a[..k];
    if k == 1 {
      EmptyRank(Q);
      EmptySpan(Q);
      assert v[Q - 1] && !Zero(Q)[Q - 1];
      RankNext([], v, Q, 0);
      assert init == [];
    } else {
      BadMatrixPrefix(M, Q, k - 1);
      if k == 2 {
        assert v == init[0];
      } else {
        NullInSpan(init, v, Q);
      }
      RankNext(init, v, Q, 1);
    }
  }

  lemma BadMatrixRank(M: nat, Q: nat)
    requires !GoodShape(M, Q)
    ensures Blank(BadMatrix(M, Q), Q, Min(M, Q))
    ensures !IsRank(Min(M, Q) - ZeroRows(BadMatrix(M, Q), M), BadMatrix(M, Q), Q)
  {
    BadMatrixZeroRows(M, Q, M);
    if M < Q {
      BadMatrixPrefix(M, Q, M);
      assert BadMatrix(M, Q)[..M] == BadMatrix(M, Q);
      RankIsUnique(BadMatrix(M, Q), Q, 1, 2);
    }
  }

  lemma RankIsUnique(a: seq<Vec>, n: nat, r: int, r': int)
    requires Width(a, n) && IsRank(r, a, n) && r != r'
    ensures !IsRank(r', a, n)
  {
    if IsRank(r', a, n) {
      Pow2Injective(r, r');
    }
  }
}
