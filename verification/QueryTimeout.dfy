module QueryTimeout {
  // When one call of dnrd's query_timeout removes every expired query: a walk along the list
  // halves each run of expired neighbours, rounding down, and the cursor starts again exactly when
  // the run at the end of the list is odd.

  import opened Common
  import opened QueryPool

  // ---------- One walk ----------

  /** What a walk from the front leaves: of an expired query and the one behind it, the latter. */
  function Kept(list: seq<Query>, now: int): (r: seq<Query>)
    ensures |r| <= |list|
  {
    if list == [] then []
    else if !Expired(list[0], now) then [list[0]] + Kept(list[1..], now)
    else if |list| == 1 then []
    else [list[1]] + Kept(list[2..], now)
  }

  /** The walk removes the last query, and so goes on from the head of the list. */
  predicate Wraps(list: seq<Query>, now: int) {
    if list == [] then false
    else if !Expired(list[0], now) then Wraps(list[1..], now)
    else |list| == 1 || Wraps(list[2..], now)
  }

  lemma {:induction false} WrapsShrinks(list: seq<Query>, now: int)
    requires Wraps(list, now)
    ensures |Kept(list, now)| < |list|
  {
    if !Expired(list[0], now) {
      WrapsShrinks(list[1..], now);
    } else if |list| > 1 {
      WrapsShrinks(list[2..], now);
    }
  }

  /** What walks leave until one does not wrap. */
  function Walked(list: seq<Query>, now: int): seq<Query>
    decreases |list|
  {
    if Wraps(list, now) then
      WrapsShrinks(list, now);
      Walked(Kept(list, now), now)
    else Kept(list, now)
  }

  /** A cursor before a live query, before an expired one with another behind it, and before an
      expired one at the end. */
  lemma KeptStep(list: seq<Query>, now: int, i: nat)
    requires i < |list|
    ensures !Expired(list[i], now) ==>
      && list[..i] + Kept(list[i..], now) == list[..i + 1] + Kept(list[i + 1..], now)
      && Wraps(list[i..], now) == Wraps(list[i + 1..], now)
    ensures Expired(list[i], now) && i + 1 < |list| ==>
      && var l := RemoveAt(list, i);
         && list[..i] + Kept(list[i..], now) == l[..i + 1] + Kept(l[i + 1..], now)
         && Wraps(list[i..], now) == Wraps(l[i + 1..], now)
    ensures Expired(list[i], now) && i + 1 == |list| ==>
      RemoveAt(list, i) == list[..i] + Kept(list[i..], now) && Wraps(list[i..], now)
  {
    var rest := list[i..];
    assert rest[0] == list[i] && rest[1..] == list[i + 1..];
    assert list[..i + 1] == list[..i] + [list[i]];
    if i + 1 < |list| {
      var l := RemoveAt(list, i);
      assert rest[1] == list[i + 1] && rest[2..] == list[i + 2..];
      assert l[..i + 1] == list[..i] + [list[i + 1]] && l[i + 1..] == list[i + 2..];
    } else {
      assert RemoveAt(list, i) == list[..i] && list[..i] + [] == list[..i];
    }
  }

  /** The cursor loop is a walk from the cursor, followed by walks from the head if it wraps. */
  lemma {:induction false} TimedOutWalks(s: State, now: int, i: nat)
    requires i <= |s.list|
    ensures var left := s.list[..i] + Kept(s.list[i..], now);
            TimedOut(s, now, i).list == if Wraps(s.list[i..], now) then Walked(left, now) else left
    decreases |s.list|, |s.list| - i
  {
    if i == |s.list| {
      assert s.list[..i] + [] == s.list;
    } else {
      KeptStep(s.list, now, i);
      if !Expired(s.list[i], now) {
        TimedOutWalks(s, now, i + 1);
      } else {
        var s' := Removed(s, i);
        if i < |s'.list| {
          TimedOutWalks(s', now, i + 1);
        } else {
          TimedOutWalks(s', now, 0);
          assert s'.list[0..] == s'.list && s'.list[..0] + Kept(s'.list, now) == Kept(s'.list, now);
        }
      }
    }
  }

  // ---------- Runs of expired queries ----------

  /** The lengths of the runs of expired queries before, between and behind the unexpired ones, as
      one more number than there are unexpired ones. */
  function Runs(list: seq<Query>, now: int): (r: seq<nat>)
    ensures |r| > 0
  {
    if list == [] then [0]
    else
      var r := Runs(list[1..], now);
      if Expired(list[0], now) then r[0 := r[0] + 1] else [0] + r
  }

  function Half(r: seq<nat>): (h: seq<nat>)
    ensures |h| == |r| && forall i :: 0 <= i < |h| ==> h[i] == r[i] / 2
  {
    seq(|r|, i requires 0 <= i < |r| => r[i] / 2)
  }

  lemma RunsCons(q: Query, list: seq<Query>, now: int)
    ensures Runs([q] + list, now)
         == if Expired(q, now) then Runs(list, now)[0 := Runs(list, now)[0] + 1] else [0] + Runs(list, now)
  {
    assert ([q] + list)[1..] == list;
  }

  lemma RunsTwo(list: seq<Query>, now: int)
    requires |list| > 1 && Expired(list[0], now)
    ensures var r := Runs(list[2..], now);
            Runs(list, now) == if Expired(list[1], now) then r[0 := r[0] + 2] else [1] + r
  {
    assert list[1..][1..] == list[2..];
  }

  lemma HalfCons(x: nat, r: seq<nat>)
    requires |r| > 0
    ensures Half([x] + r) == [x / 2] + Half(r) && Last([x] + r) == Last(r)
  {
  }

  lemma HalfTwoMore(r: seq<nat>)
    requires |r| > 0
    ensures Half(r[0 := r[0] + 2]) == Half(r)[0 := Half(r)[0] + 1]
    ensures Last(r[0 := r[0] + 2]) % 2 == Last(r) % 2
  {
  }

  function Last(r: seq<nat>): nat
    requires |r| > 0
  {
    r[|r| - 1]
  }

  /** A walk halves every run, and wraps exactly if the last one is odd. */
  lemma {:induction false} KeptHalves(list: seq<Query>, now: int)
    ensures Runs(Kept(list, now), now) == Half(Runs(list, now))
    ensures Wraps(list, now) <==> Last(Runs(list, now)) % 2 == 1
    decreases |list|, 1
  {
    if list == [] {
    } else if !Expired(list[0], now) {
      KeptHalves(list[1..], now);
      RunsCons(list[0], Kept(list[1..], now), now);
      HalfCons(0, Runs(list[1..], now));
    } else if |list| == 1 {
      assert Runs(list[1..], now) == [0];
    } else {
      KeptHalvesTwo(list, now);
    }
  }

  lemma {:induction false} KeptHalvesTwo(list: seq<Query>, now: int)
    requires |list| > 1 && Expired(list[0], now)
    ensures Runs(Kept(list, now), now) == Half(Runs(list, now))
    ensures Wraps(list, now) <==> Last(Runs(list, now)) % 2 == 1
    decreases |list|, 0
  {
    KeptHalves(list[2..], now);
    RunsTwo(list, now);
    RunsCons(list[1], Kept(list[2..], now), now);
    HalfCons(1, Runs(list[2..], now));
    HalfTwoMore(Runs(list[2..], now));
  }

  predicate AllZero(r: seq<nat>) {
    forall i :: 0 <= i < |r| ==> r[i] == 0
  }

  lemma AllZeroCons(r: seq<nat>)
    ensures AllZero([0] + r) <==> AllZero(r)
  {
    assert forall i :: 0 <= i < |r| ==> r[i] == ([0] + r)[i + 1];
  }

  lemma {:induction false} NoneOldNoRuns(list: seq<Query>, now: int)
    ensures Old(list, now) == 0 <==> AllZero(Runs(list, now))
  {
    if list != [] {
      NoneOldNoRuns(list[1..], now);
      AllZeroCons(Runs(list[1..], now));
      if Expired(list[0], now) {
        assert Runs(list, now)[0] > 0;
      }
    }
  }

  // ---------- The exact condition ----------

  /** The last run is 2^k - 1 long and every run shorter than 2^(k + 1). */
  predicate Fits(r: seq<nat>, k: nat)
    requires |r| > 0
  {
    Last(r) == Pow2(k) - 1 && forall i :: 0 <= i < |r| ==> r[i] < Pow2(k + 1)
  }

  ghost predicate Clearable(r: seq<nat>)
    requires |r| > 0
  {
    exists k: nat :: Fits(r, k)
  }

  lemma FitsHalf(r: seq<nat>, k: nat)
    requires |r| > 0 && Last(r) % 2 == 1
    ensures Fits(Half(r), k) <==> Fits(r, k + 1)
  {
    var h, p := Half(r), Pow2(k + 1);
    assert Pow2(k + 2) == 2 * p;
    forall i | 0 <= i < |r|
      ensures h[i] < p <==> r[i] < 2 * p
    {
    }
    if Fits(r, k + 1) {
      assert forall i :: 0 <= i < |r| ==> r[i] < 2 * p;
    }
  }

  lemma {:induction false} Pow2Even(k: nat)
    ensures Pow2(k) >= 1 && (k > 0 ==> Pow2(k) % 2 == 0)
  {
    if k > 0 {
      Pow2Even(k - 1);
      Twice(Pow2(k - 1));
    }
  }

  lemma Twice(p: nat)
    ensures 2 * p % 2 == 0
  {
  }

  /** If the last run is even, only a list without two expired neighbours is cleared. */
  lemma FitsEven(r: seq<nat>)
    requires |r| > 0 && Last(r) % 2 == 0
    ensures Clearable(r) <==> AllZero(Half(r))
  {
    var h := Half(r);
    if k: nat :| Fits(r, k) {
      Pow2Even(k);
      assert k == 0;
      assert forall i :: 0 <= i < |r| ==> r[i] < Pow2(1);
    }
    if AllZero(h) {
      assert forall i :: 0 <= i < |r| ==> h[i] == r[i] / 2;
      assert Fits(r, 0);
    }
  }

  lemma FitsOdd(r: seq<nat>)
    requires |r| > 0 && Last(r) % 2 == 1
    ensures Clearable(r) <==> Clearable(Half(r))
  {
    if k: nat :| Fits(r, k) {
      assert k > 0 by {
        assert Pow2(0) == 1;
      }
      FitsHalf(r, k - 1);
    }
    if k: nat :| Fits(Half(r), k) {
      FitsHalf(r, k);
    }
  }

  lemma {:induction false} WalkedClears(list: seq<Query>, now: int)
    ensures Old(Walked(list, now), now) == 0 <==> Clearable(Runs(list, now))
    decreases |list|
  {
    KeptHalves(list, now);
    if Wraps(list, now) {
      WrapsShrinks(list, now);
      WalkedClears(Kept(list, now), now);
      FitsOdd(Runs(list, now));
    } else {
      NoneOldNoRuns(Kept(list, now), now);
      FitsEven(Runs(list, now));
    }
  }

  /** One time-out leaves exactly the unexpired queries if and only if, for some k, the run of
      expired queries at the end of the list is 2^k - 1 long and no run has 2^(k + 1) or more. */
  lemma TimeoutClearsExactly(s: State, now: int)
    ensures TimedOut(s, now, 0).list == Live(s.list, now) <==> Clearable(Runs(s.list, now))
  {
    assert s.list[0..] == s.list && s.list[..0] + Kept(s.list, now) == Kept(s.list, now);
    TimedOutWalks(s, now, 0);
    WalkedClears(s.list, now);
    TimeoutHalves(s, now);
    var l := TimedOut(s, now, 0).list;
    SizeIsLiveAndOld(l, now);
    if Old(l, now) == 0 {
      NoneOld(l, now);
    }
  }
}
