module BerlekampMassey {
  // The Berlekamp-Massey loop of `LinearComplexity` (section 2.10 of NIST SP 800-22 Rev. 1a):
  // for each block of M bits it computes the length of the shortest linear feedback shift
  // register over GF(2) that produces the block.
  //
  // The specification is `IsLinearComplexity`, which mentions registers only. The code is the
  // loop over the work arrays C, B, P and T. What joins the two is `Inv`, the state every pass
  // of the loop keeps, and Massey's lower bound `MasseyBound`.

  import opened Common

  // ---------- Shift registers ----------

  /** The feedback bit of the register with taps c at time k: the xor over 1 <= i <= n of
      c[i-1] and s[k-i]. */
  ghost function Feedback(c: seq<bool>, s: seq<bool>, k: nat, n: nat): bool
    requires n <= |c| && n <= k <= |s|
  {
    if n == 0 then false else Feedback(c, s, k, n - 1) != (c[n - 1] && s[k - n])
  }

  /** The register with taps c, loaded with the first |c| bits of s, goes on to produce the
      first n bits of s. */
  ghost predicate Generates(c: seq<bool>, s: seq<bool>, n: nat)
    requires n <= |s|
  {
    forall k :: |c| <= k < n ==> s[k] == Feedback(c, s, k, |c|)
  }

  /** L is the least length of any register that produces the whole of s. */
  ghost predicate IsLinearComplexity(L: nat, s: seq<bool>) {
    && (exists c: seq<bool> :: |c| == L && Generates(c, s, |s|))
    && (forall c: seq<bool> :: Generates(c, s, |s|) ==> L <= |c|)
  }

  // ---------- Connection polynomials ----------

  /** Coefficient i of the polynomial p, zero past its end. */
  ghost function Coef(p: seq<bool>, i: int): bool {
    0 <= i < |p| && p[i]
  }

  /** The xor over 0 <= i <= n of coefficient i of p and s[k-i]: the discrepancy of p at k. */
  ghost function Parity(p: seq<bool>, s: seq<bool>, k: nat, n: nat): bool
    requires n <= k < |s|
  {
    if n == 0 then Coef(p, 0) && s[k] else Parity(p, s, k, n - 1) != (Coef(p, n) && s[k - n])
  }

  /** p has constant coefficient one, degree at most L, and no discrepancy at L, ..., n-1. */
  ghost predicate Connects(p: seq<bool>, L: nat, s: seq<bool>, n: nat)
    requires n <= |s|
  {
    && Coef(p, 0)
    && (forall i :: L < i < |p| ==> !Coef(p, i))
    && (forall k :: L <= k < n ==> !Parity(p, s, k, L))
  }

  /** A register is the polynomial 1 + c[0] x + c[1] x^2 + ... */
  lemma {:induction false} FeedbackIsParity(c: seq<bool>, p: seq<bool>, s: seq<bool>, k: nat, n: nat)
    requires n <= |c| && n <= k < |s|
    requires Coef(p, 0) && forall i :: 1 <= i <= n ==> Coef(p, i) == c[i - 1]
    ensures Parity(p, s, k, n) == (s[k] != Feedback(c, s, k, n))
  {
    if n > 0 {
      FeedbackIsParity(c, p, s, k, n - 1);
    }
  }

  /** Terms above the degree do not change the discrepancy. */
  lemma {:induction false} ParityPastDegree(p: seq<bool>, s: seq<bool>, k: nat, n: nat, n': nat)
    requires n <= n' <= k < |s|
    requires forall i :: n < i <= n' ==> !Coef(p, i)
    ensures Parity(p, s, k, n') == Parity(p, s, k, n)
  {
    if n < n' {
      ParityPastDegree(p, s, k, n, n' - 1);
    }
  }

  // ---------- Massey's lower bound ----------

  /** The double sum over 0 <= i <= n and 0 <= j <= m of p_i q_j s[k-i-j], by rows of i. */
  ghost function Rows(p: seq<bool>, n: nat, q: seq<bool>, m: nat, s: seq<bool>, k: nat): bool
    requires n + m <= k < |s|
    decreases n
  {
    var last := Coef(p, n) && Parity(q, s, k - n, m);
    if n == 0 then last else Rows(p, n - 1, q, m, s, k) != last
  }

  /** One more column adds q's column term to every row. */
  lemma {:induction false} RowsAddColumn(p: seq<bool>, n: nat, q: seq<bool>, m: nat, s: seq<bool>, k: nat)
    requires 0 < m && n + m <= k < |s|
    ensures Rows(p, n, q, m, s, k) == (Rows(p, n, q, m - 1, s, k) != (Coef(q, m) && Parity(p, s, k - m, n)))
    decreases n
  {
    if n > 0 {
      RowsAddColumn(p, n - 1, q, m, s, k);
      assert s[k - n - m] == s[k - m - n];
    }
  }

  lemma {:induction false} RowsSingle(p: seq<bool>, n: nat, q: seq<bool>, s: seq<bool>, k: nat)
    requires n <= k < |s|
    ensures Rows(p, n, q, 0, s, k) == (Coef(q, 0) && Parity(p, s, k, n))
    decreases n
  {
    if n > 0 {
      RowsSingle(p, n - 1, q, s, k);
    }
  }

  /** The double sum is symmetric in the two polynomials. */
  lemma {:induction false} RowsSwap(p: seq<bool>, n: nat, q: seq<bool>, m: nat, s: seq<bool>, k: nat)
    requires n + m <= k < |s|
    ensures Rows(p, n, q, m, s, k) == Rows(q, m, p, n, s, k)
    decreases m
  {
    if m == 0 {
      RowsSingle(p, n, q, s, k);
    } else {
      RowsAddColumn(p, n, q, m, s, k);
      RowsSwap(p, n, q, m - 1, s, k);
    }
  }

  /** If every row below the first vanishes, only the first one is left. */
  lemma {:induction false} RowsFirstOnly(p: seq<bool>, n: nat, q: seq<bool>, m: nat, s: seq<bool>, k: nat)
    requires n + m <= k < |s|
    requires forall t :: k - n <= t < k ==> !Parity(q, s, t, m)
    ensures Rows(p, n, q, m, s, k) == (Coef(p, 0) && Parity(q, s, k, m))
    decreases n
  {
    if n > 0 {
      assert !Parity(q, s, k - n, m);
      RowsFirstOnly(p, n - 1, q, m, s, k);
    }
  }

  /** Massey's theorem: a register of length L that produces n bits and errs on the next one
      forces every register that produces all n + 1 bits to have length at least n + 1 - L. */
  lemma {:induction false} MasseyBound(p: seq<bool>, L: nat, s: seq<bool>, n: nat, c: seq<bool>)
    requires L <= n < |s|
    requires Connects(p, L, s, n) && Parity(p, s, n, L)
    requires Generates(c, s, n + 1)
    ensures |c| + L >= n + 1
  {
    if |c| + L <= n {
      var q, m := [true] + c, |c|;
      forall k | m <= k < n + 1
        ensures !Parity(q, s, k, m)
      {
        FeedbackIsParity(c, q, s, k, m);
      }
      assert !Parity(q, s, n, m);
      RowsFirstOnly(p, L, q, m, s, n);
      RowsFirstOnly(q, m, p, L, s, n);
      RowsSwap(p, L, q, m, s, n);
    }
  }

  // ---------- The loop state ----------

  /** p + x^shift b, cut to the length of p. */
  ghost function Corrected(p: seq<bool>, b: seq<bool>, shift: nat): (r: seq<bool>)
    ensures |r| == |p|
  {
    seq(|p|, i requires 0 <= i < |p| => p[i] != Coef(b, i - shift))
  }

  /** The discrepancy of a corrected polynomial is the xor of the two discrepancies. */
  lemma {:induction false} ParityCorrected(p: seq<bool>, b: seq<bool>, shift: nat, s: seq<bool>, k: nat, n: nat)
    requires n <= k < |s| && k < |p|
    ensures Parity(Corrected(p, b, shift), s, k, n)
         == (Parity(p, s, k, n) != (shift <= n && Parity(b, s, k - shift, n - shift)))
    decreases n
  {
    var r := Corrected(p, b, shift);
    assert Coef(r, n) == (Coef(p, n) != Coef(b, n - shift));
    if n > 0 {
      ParityCorrected(p, b, shift, s, k, n - 1);
      if shift <= n {
        assert s[k - n] == s[k - shift - (n - shift)];
      }
    }
  }

  /** What holds after n bits: p is a shortest register of length L for them, and b is the
      polynomial held before the last length change, which erred at bit m. */
  ghost predicate Inv(p: seq<bool>, b: seq<bool>, L: nat, m: int, n: nat, s: seq<bool>) {
    && L <= n <= |s| && |p| == |b| == |s|
    && -1 <= m < n && L <= m + 1
    && Connects(p, L, s, n)
    && (m == -1 ==> L == 0)
    && Coef(b, 0) && (forall i :: m + 1 - L < i < |b| ==> !Coef(b, i))
    && (m >= 0 ==> Connects(b, m + 1 - L, s, m) && m + 1 - L <= m && Parity(b, s, m, m + 1 - L))
    && Shortest(L, s, n)
  }

  ghost predicate Shortest(L: nat, s: seq<bool>, n: nat)
    requires n <= |s|
  {
    forall c: seq<bool> :: Generates(c, s, n) ==> L <= |c|
  }

  /** The shifted old polynomial ends at index |s| at the latest. */
  lemma ShiftFits(p: seq<bool>, b: seq<bool>, L: nat, m: int, n: nat, s: seq<bool>)
    requires Inv(p, b, L, m, n, s) && n < |s|
    ensures Coef(p, 0)
    ensures forall j :: 0 <= j < |b| && Coef(b, j) ==> j + (n - m) <= |s|
  {
  }

  /** No discrepancy: the same register goes on. */
  lemma InvNoDiscrepancy(p: seq<bool>, b: seq<bool>, L: nat, m: int, n: nat, s: seq<bool>)
    requires Inv(p, b, L, m, n, s) && n < |s| && !Parity(p, s, n, L)
    ensures Inv(p, b, L, m, n + 1, s)
  {
    assert forall c: seq<bool> :: Generates(c, s, n + 1) ==> Generates(c, s, n);
  }

  /** A discrepancy is corrected by the shifted old polynomial, at length max(L, n + 1 - L). */
  lemma CorrectionConnects(p: seq<bool>, b: seq<bool>, L: nat, m: int, n: nat, s: seq<bool>, L': nat)
    requires Inv(p, b, L, m, n, s) && n < |s| && Parity(p, s, n, L)
    requires L <= L' && n + 1 - L <= L' <= n + 1
    ensures Connects(Corrected(p, b, n - m), L', s, n + 1)
  {
    var r := Corrected(p, b, n - m);
    assert Coef(p, 0) && r[0] == (p[0] != Coef(b, 0 - (n - m)));
    forall i | L' < i < |r|
      ensures !Coef(r, i)
    {
      assert !Coef(p, i);
    }
    forall k | L' <= k < n + 1
      ensures !Parity(r, s, k, L')
    {
      var shift := n - m;
      ParityCorrected(p, b, shift, s, k, L');
      ParityPastDegree(p, s, k, L, L');
      if m >= 0 {
        ParityPastDegree(b, s, k - shift, m + 1 - L, L' - shift);
      }
    }
  }

  /** After a discrepancy no register shorter than max(L, n + 1 - L) will do. */
  lemma CorrectionShortest(p: seq<bool>, b: seq<bool>, L: nat, m: int, n: nat, s: seq<bool>, L': nat)
    requires Inv(p, b, L, m, n, s) && n < |s| && Parity(p, s, n, L)
    requires L' == L || L' == n + 1 - L
    ensures Shortest(L', s, n + 1)
  {
    forall c: seq<bool> | Generates(c, s, n + 1)
      ensures L' <= |c|
    {
      assert Generates(c, s, n);
      MasseyBound(p, L, s, n, c);
    }
  }

  /** The state after a discrepancy, with and without a change of length. */
  lemma InvDiscrepancy(p: seq<bool>, b: seq<bool>, L: nat, m: int, n: nat, s: seq<bool>)
    requires Inv(p, b, L, m, n, s) && n < |s| && Parity(p, s, n, L)
    ensures L <= n / 2 ==> Inv(Corrected(p, b, n - m), p, n + 1 - L, n, n + 1, s)
    ensures L > n / 2 ==> Inv(Corrected(p, b, n - m), b, L, m, n + 1, s)
  {
    var L' := if L <= n / 2 then n + 1 - L else L;
    CorrectionConnects(p, b, L, m, n, s, L');
    CorrectionShortest(p, b, L, m, n, s, L');
  }

  /** When every bit is read, L is the linear complexity. */
  lemma InvFinal(p: seq<bool>, b: seq<bool>, L: nat, m: int, s: seq<bool>)
    requires Inv(p, b, L, m, |s|, s)
    ensures IsLinearComplexity(L, s)
  {
    var c := seq(L, i requires 0 <= i < L => Coef(p, i + 1));
    forall k | |c| <= k < |s|
      ensures s[k] == Feedback(c, s, k, |c|)
    {
      assert !Parity(p, s, k, L);
      FeedbackIsParity(c, p, s, k, L);
    }
    assert |c| == L && Generates(c, s, |s|);
  }

  ghost predicate OpenHeld(p: seq<bool>, n: nat, u: nat) {
    true
  }

  /** The invariant, under a quantifier that only HeldMeans opens, so that the code handles it as
      a name. */
  ghost predicate Held(p: seq<bool>, b: seq<bool>, L: nat, m: int, n: nat, s: seq<bool>) {
    && L <= n <= |s| && |p| == |b| == |s| && -1 <= m < n
    && forall u: nat {:trigger OpenHeld(p, n, u)} :: OpenHeld(p, n, u) ==> Inv(p, b, L, m, n, s)
  }

  lemma HeldMeans(p: seq<bool>, b: seq<bool>, L: nat, m: int, n: nat, s: seq<bool>)
    requires Held(p, b, L, m, n, s)
    ensures Inv(p, b, L, m, n, s)
  {
    assert OpenHeld(p, n, 0);
  }

  /** One bit: the step of the algorithm keeps the invariant. */
  lemma HeldStep(p: seq<bool>, b: seq<bool>, L: nat, m: int, n: nat, s: seq<bool>)
    requires Held(p, b, L, m, n, s) && n < |s|
    ensures Coef(p, 0)
    ensures forall j :: 0 <= j < |b| && Coef(b, j) ==> j + (n - m) <= |s|
    ensures !Parity(p, s, n, L) ==> Held(p, b, L, m, n + 1, s)
    ensures Parity(p, s, n, L) && L <= n / 2 ==> Held(Corrected(p, b, n - m), p, n + 1 - L, n, n + 1, s)
    ensures Parity(p, s, n, L) && L > n / 2 ==> Held(Corrected(p, b, n - m), b, L, m, n + 1, s)
  {
    HeldMeans(p, b, L, m, n, s);
    ShiftFits(p, b, L, m, n, s);
    if Parity(p, s, n, L) {
      InvDiscrepancy(p, b, L, m, n, s);
    } else {
      InvNoDiscrepancy(p, b, L, m, n, s);
    }
  }

  // ---------- The code ----------

  /** Bit pos of an array of 32-bit words: ((words[pos >> 5]) >> (pos & 31)) & 1. Euclidean
      division by a power of two is the arithmetic shift, also for a negative word. */
  function BitAt(words: seq<int>, pos: nat): (b: int)
    requires pos < 32 * |words|
    ensures b == 0 || b == 1
  {
    (words[pos / 32] / Pow2(pos % 32)) % 2
  }

  /** The M bits from position base on. */
  ghost function Block(words: seq<int>, base: nat, M: nat): (s: seq<bool>)
    requires base + M <= 32 * |words|
    ensures |s| == M
  {
    seq(M, i requires 0 <= i < M => BitAt(words, base + i) == 1)
  }

  lemma BlockBit(words: seq<int>, base: nat, M: nat, k: nat)
    requires base + M <= 32 * |words| && k < M
    ensures Block(words, base, M)[k] == (BitAt(words, base + k) == 1)
  {
  }

  /** The polynomial held in the first M cells of a work array. */
  ghost function Bits(a: array<int>, M: nat): (p: seq<bool>)
    requires M <= a.Length
    reads a
    ensures |p| == M
  {
    seq(M, i requires 0 <= i < M reads a => a[i] == 1)
  }

  /** The bytes the allocator reserves for a work array of the given number of 4-byte cells:
      there is always room for one cell more. */
  function ReservedBytes(cells: nat): (bytes: nat)
    ensures bytes >= 4 * (cells + 1)
  {
    (4 * cells + 16) / 16 * 16
  }

  ghost predicate Binary(a: array<int>, M: nat)
    requires M <= a.Length
    reads a
  {
    forall i :: 0 <= i < M ==> a[i] == 0 || a[i] == 1
  }

  /** Bit n - i of the block, if C taps it. */
  method Tapped(words: seq<int>, base: nat, M: nat, C: array<int>, i: nat, n: nat) returns (t: bool)
    requires base + M <= 32 * |words| && M <= C.Length && i <= n < M
    ensures t <==> Coef(Bits(C, M), i) && Block(words, base, M)[n - i]
  {
    BlockBit(words, base, M, n - i);
    t := C[i] == 1 && BitAt(words, base + n - i) == 1;
  }

  /** d: the current bit plus the tapped earlier bits, reduced at the end. */
  method Discrepancy(words: seq<int>, base: nat, M: nat, C: array<int>, L: nat, n: nat) returns (d: int)
    requires base + M <= 32 * |words|
    requires M <= C.Length && Binary(C, M) && L <= n < M && C[0] == 1
    ensures d == 0 || d == 1
    ensures d == 1 <==> Parity(Bits(C, M), Block(words, base, M), n, L)
  {
    d := BitAt(words, base + n);
    ghost var p, s := Bits(C, M), Block(words, base, M);
    for i := 1 to L + 1
      invariant d >= 0
      invariant d % 2 == 1 <==> Parity(p, s, n, i - 1)
    {
      var tapped := Tapped(words, base, M, C, i, n);
      d := d + if tapped then 1 else 0;
    }
    d := d % 2;
  }

  /** T takes a copy of C, P becomes x^shift B, and C becomes C + P, cell by cell. P has one
      cell more than the M that are cleared: the shifted one can land on index M. */
  method Correct(M: nat, B: array<int>, C: array<int>, P: array<int>, T: array<int>, shift: nat)
    requires B.Length == C.Length == P.Length == T.Length == M + 1
    requires B != C && B != P && B != T && C != P && C != T && P != T
    requires Binary(B, M) && Binary(C, M)
    requires forall j :: 0 <= j < M && B[j] == 1 ==> j + shift <= M
    modifies C, P, T
    ensures Bits(C, M) == Corrected(old(Bits(C, M)), Bits(B, M), shift)
    ensures forall i :: 0 <= i < M ==> T[i] == old(C[i])
    ensures Binary(C, M)
  {
    for i := 0 to M
      modifies P, T
      invariant forall k :: 0 <= k < i ==> T[k] == C[k] && P[k] == 0
    {
      T[i] := C[i];
      P[i] := 0;
    }
    for j := 0 to M
      modifies P
      invariant forall k :: 0 <= k < M ==> P[k] == if 0 <= k - shift < j && B[k - shift] == 1 then 1 else 0
    {
      if B[j] == 1 {
        P[j + shift] := 1;
      }
    }
    for i := 0 to M
      modifies C
      invariant forall k :: 0 <= k < i ==> C[k] == (old(C[k]) + P[k]) % 2
      invariant forall k :: i <= k < M ==> C[k] == old(C[k])
    {
      C[i] := (C[i] + P[i]) % 2;
    }
    ghost var before, b := old(Bits(C, M)), Bits(B, M);
    assert forall k :: 0 <= k < M ==> Bits(C, M)[k] == (before[k] != Coef(b, k - shift));
  }

  method Copy(M: nat, T: array<int>, B: array<int>)
    requires M <= T.Length && M <= B.Length && T != B
    modifies B
    ensures forall k :: 0 <= k < M ==> B[k] == T[k]
  {
    for i := 0 to M
      invariant forall k :: 0 <= k < i ==> B[k] == T[k]
    {
      B[i] := T[i];
    }
  }

  /** What a pass does on a discrepancy. */
  method Update(M: nat, B: array<int>, C: array<int>, P: array<int>, T: array<int>, L: nat, m: int, n: nat)
    returns (L': nat, m': int)
    requires B.Length == C.Length == P.Length == T.Length == M + 1
    requires B != C && B != P && B != T && C != P && C != T && P != T
    requires m < n && Binary(B, M) && Binary(C, M)
    requires forall j :: 0 <= j < M && B[j] == 1 ==> j + (n - m) <= M
    modifies B, C, P, T
    ensures Binary(B, M) && Binary(C, M) && Bits(C, M) == Corrected(old(Bits(C, M)), old(Bits(B, M)), n - m)
    ensures if L <= n / 2 then L' == n + 1 - L && m' == n && Bits(B, M) == old(Bits(C, M))
            else L' == L && m' == m && Bits(B, M) == old(Bits(B, M))
  {
    L', m' := L, m;
    Correct(M, B, C, P, T, n - m);
    if L <= n / 2 {
      L' := n + 1 - L;
      m' := n;
      Copy(M, T, B);
    }
  }

  /** One pass of the while loop, for the bit at n. */
  method Pass(words: seq<int>, base: nat, M: nat, B: array<int>, C: array<int>, P: array<int>, T: array<int>,
              L: nat, m: int, n: nat) returns (L': nat, m': int)
    requires base + M <= 32 * |words|
    requires B.Length == C.Length == P.Length == T.Length == M + 1
    requires B != C && B != P && B != T && C != P && C != T && P != T
    requires n < M && Binary(B, M) && Binary(C, M)
    requires Held(Bits(C, M), Bits(B, M), L, m, n, Block(words, base, M))
    modifies B, C, P, T
    ensures Binary(B, M) && Binary(C, M)
    ensures Held(Bits(C, M), Bits(B, M), L', m', n + 1, Block(words, base, M))
  {
    ghost var p, b, s := Bits(C, M), Bits(B, M), Block(words, base, M);
    L', m' := L, m;
    HeldStep(p, b, L, m, n, s);
    assert C[0] == 1 by { assert Coef(p, 0); }
    var d := Discrepancy(words, base, M, C, L, n);
    if d == 1 {
      assert forall j :: 0 <= j < M && B[j] == 1 ==> Coef(b, j);
      L', m' := Update(M, B, C, P, T, L, m, n);
    }
  }

  /** The state before the first bit: both polynomials are 1. */
  lemma InvInitial(p: seq<bool>, s: seq<bool>)
    requires |p| == |s| > 0 && forall i :: 0 <= i < |p| ==> p[i] == (i == 0)
    ensures Held(p, p, 0, -1, 0, s)
  {
    assert p[0];
  }

  /** One block: its registers and arrays are reset, then every bit is read. */
  method BlockComplexity(words: seq<int>, base: nat, M: nat,
                         B: array<int>, C: array<int>, P: array<int>, T: array<int>) returns (L: nat)
    requires base + M <= 32 * |words|
    requires B.Length == C.Length == P.Length == T.Length == M + 1
    requires B != C && B != P && B != T && C != P && C != T && P != T
    modifies B, C, P, T
    ensures IsLinearComplexity(L, Block(words, base, M))
  {
    for i := 0 to M
      invariant forall k :: 0 <= k < i ==> B[k] == 0 && C[k] == 0
    {
      B[i], C[i], T[i], P[i] := 0, 0, 0, 0;
    }
    L := 0;
    var m := -1;
    C[0] := 1;
    B[0] := 1;
    var n := 0;
    ghost var s := Block(words, base, M);
    if M > 0 {
      assert Bits(B, M) == Bits(C, M);
      InvInitial(Bits(C, M), s);
    }
    while n < M
      invariant 0 <= n <= M && (M == 0 ==> L == 0)
      invariant Binary(B, M) && Binary(C, M)
      invariant M > 0 ==> Held(Bits(C, M), Bits(B, M), L, m, n, s)
    {
      L, m := Pass(words, base, M, B, C, P, T, L, m, n);
      n := n + 1;
    }
    if M > 0 {
      HeldMeans(Bits(C, M), Bits(B, M), L, m, n, s);
      InvFinal(Bits(C, M), Bits(B, M), L, m, s);
    } else {
      assert Generates([], s, |s|);
    }
  }

  lemma BlockInside(i: nat, M: nat, N: nat)
    requires i < N
    ensures i * M + M <= N * M
  {
    assert (i + 1) * M <= N * M;
  }

  /** L is the linear complexity of block b. */
  ghost predicate Measured(words: seq<int>, start: nat, M: nat, b: nat, L: nat) {
    b * M + start + M <= 32 * |words| && IsLinearComplexity(L, Block(words, b * M + start, M))
  }

  /** Every block of the sample, on one set of work arrays. The lengths are what the
      floating-point part of the test then classifies. */
  method LinearComplexity(M: nat, N: nat, words: seq<int>, start: nat) returns (lengths: seq<nat>)
    requires start + N * M <= 32 * |words|
    ensures |lengths| == N
    ensures forall b :: 0 <= b < N ==> Measured(words, start, M, b, lengths[b])
  {
    var B, C, P, T := new int[M + 1], new int[M + 1], new int[M + 1], new int[M + 1];
    lengths := [];
    for i := 0 to N
      invariant |lengths| == i
      invariant forall b :: 0 <= b < i ==> Measured(words, start, M, b, lengths[b])
    {
      BlockInside(i, M, N);
      var L := BlockComplexity(words, i * M + start, M, B, C, P, T);
      assert Measured(words, start, M, i, L);
      lengths := lengths + [L];
    }
  }
}
