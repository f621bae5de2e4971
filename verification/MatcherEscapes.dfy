module MatcherEscapes {
  // The comment above the rinetd matcher lets a backslash escape any character. The code honours an
  // escape in front of the first star only, and one of a bar only where the subject has a bar, too.
  // Here both readings of a pattern are compared: for subjects without bars they agree exactly on the
  // alternatives that have no other escapes, and for all subjects if moreover no question mark stands
  // behind a star.

  import opened Matcher

  // ---------- The reading of the comment ----------

  /** The part [i, j) of pattern p matches the subject s from t to its end when every backslash makes
      the next character a literal. A backslash that ends the pattern has nothing to escape. */
  ghost predicate Reads(nocase: bool, p: string, i: nat, j: nat, s: string, t: nat)
    requires i <= j <= |p| && t <= |s|
    decreases j - i, 0
  {
    if i == j then t == |s|
    else if p[i] == '*' then ReadsLater(nocase, p, i + 1, j, s, t)
    else if p[i] == '\\' then
      if i + 1 == j then j == |p| && t == |s|
      else t < |s| && Fold(nocase, p[i + 1]) == Fold(nocase, s[t]) && Reads(nocase, p, i + 2, j, s, t + 1)
    else t < |s| && Accepts(nocase, p[i], s[t]) && Reads(nocase, p, i + 1, j, s, t + 1)
  }

  ghost predicate ReadsLater(nocase: bool, p: string, i: nat, j: nat, s: string, t: nat)
    requires i <= j <= |p| && t <= |s|
    decreases j - i, 1
  {
    exists u :: t <= u <= |s| && Reads(nocase, p, i, j, s, u)
  }

  /** The next bar that is not escaped, or the end of the pattern. */
  function WrittenEnd(p: string, a: nat): (b: nat)
    requires a <= |p|
    ensures a <= b <= |p| && (b == |p| || p[b] == '|')
    decreases |p| - a
  {
    if a == |p| || p[a] == '|' then a
    else if p[a] == '\\' then if a + 1 == |p| then |p| else WrittenEnd(p, a + 2)
    else WrittenEnd(p, a + 1)
  }

  /** Some alternative from a on matches the subject. */
  ghost predicate Intended(nocase: bool, p: string, a: nat, s: string)
    requires a <= |p|
    decreases |p| - a
  {
    var b := WrittenEnd(p, a);
    Reads(nocase, p, a, b, s, 0) || (b < |p| && Intended(nocase, p, b + 1, s))
  }

  // ---------- What the code makes of it ----------

  /** A backslash stands behind the first star that is not escaped. */
  predicate Late(p: string, i: nat, j: nat)
    requires i <= j <= |p|
    decreases j - i
  {
    if i == j then false
    else if p[i] == '*' then Count('\\', p, i + 1, j) > 0
    else if p[i] == '\\' then i + 1 < j && Late(p, i + 2, j)
    else Late(p, i + 1, j)
  }

  /** How often c stands in [i, j). */
  function Count(c: char, p: string, i: nat, j: nat): nat
    requires i <= j <= |p|
    decreases j - i
  {
    if i == j then 0 else (if p[i] == c then 1 else 0) + Count(c, p, i + 1, j)
  }

  /** The number of question marks behind the first star that is not escaped. */
  function MarksBehind(p: string, i: nat, j: nat): nat
    requires i <= j <= |p|
    decreases j - i
  {
    if i == j then 0
    else if p[i] == '*' then Count('?', p, i + 1, j)
    else if p[i] == '\\' then if i + 1 < j then MarksBehind(p, i + 2, j) else 0
    else MarksBehind(p, i + 1, j)
  }

  /** No backslash of the alternative that begins at a stands before a bar or behind the first star. */
  predicate Honoured(p: string, a: nat)
    requires a <= |p|
  {
    AltEnd(p, a) == WrittenEnd(p, a) && !Late(p, a, AltEnd(p, a))
  }

  predicate AllHonoured(p: string, a: nat)
    requires a <= |p|
    decreases |p| - a
  {
    Honoured(p, a) && var b := WrittenEnd(p, a); b < |p| ==> AllHonoured(p, b + 1)
  }

  /** The code takes the alternative [a, b) of the comment for one or more alternatives. */
  ghost predicate SomePiece(nocase: bool, p: string, a: nat, b: nat, s: string) {
    exists c, d :: Piece(nocase, p, a, b, s, c, d)
  }

  ghost predicate Piece(nocase: bool, p: string, a: nat, b: nat, s: string, c: nat, d: nat) {
    a <= c && d <= b && MatchingAlternative(nocase, p, c, d, s)
  }

  // ---------- Where they agree ----------

  /** No part of [i, j) reads a bar of the subject in two ways. */
  predicate Indifferent(p: string, i: nat, j: nat, s: string)
    requires i <= j <= |p|
  {
    '|' !in s || (Count('?', p, i, j) == 0 && j == |p|)
  }

  /** Behind a star without further backslashes both readings are one. */
  lemma {:induction false} ReadsPlain(nocase: bool, p: string, i: nat, j: nat, s: string, t: nat)
    requires i <= j <= |p| && t <= |s| && Count('\\', p, i, j) == 0 && Indifferent(p, i, j, s)
    ensures Reads(nocase, p, i, j, s, t) <==> Matches(nocase, p, i, j, s, t)
    decreases j - i, 0
  {
    if i < j {
      if p[i] == '*' {
        PlainLater(nocase, p, i + 1, j, s, t);
      } else if t < |s| {
        assert s[t] in s;
        ReadsPlain(nocase, p, i + 1, j, s, t + 1);
      }
    }
  }

  lemma {:induction false} PlainLater(nocase: bool, p: string, i: nat, j: nat, s: string, t: nat)
    requires i <= j <= |p| && t <= |s| && Count('\\', p, i, j) == 0 && Indifferent(p, i, j, s)
    ensures ReadsLater(nocase, p, i, j, s, t) <==> MatchesLater(nocase, p, i, j, s, t)
    decreases j - i, 1
  {
    if u :| t <= u <= |s| && Reads(nocase, p, i, j, s, u) {
      ReadsPlain(nocase, p, i, j, s, u);
    }
    if u :| t <= u <= |s| && Matches(nocase, p, i, j, s, u) {
      ReadsPlain(nocase, p, i, j, s, u);
    }
  }

  lemma {:induction false} ReadsFits(nocase: bool, p: string, i: nat, j: nat, s: string, t: nat)
    requires i <= j <= |p| && t <= |s| && !Late(p, i, j)
    requires '|' !in s || (j == |p| && MarksBehind(p, i, j) == 0)
    ensures Reads(nocase, p, i, j, s, t) <==> Fits(nocase, p, i, j, s, t)
    decreases j - i
  {
    if i < j {
      if p[i] == '*' {
        PlainLater(nocase, p, i + 1, j, s, t);
      } else if t < |s| {
        if p[i] != '\\' {
          ReadsFits(nocase, p, i + 1, j, s, t + 1);
        } else if i + 1 < j {
          ReadsFits(nocase, p, i + 2, j, s, t + 1);
        }
      }
    }
  }

  // ---------- A late backslash makes them differ ----------

  lemma {:induction false} CountFrom(s: string, t: nat, u: nat)
    requires t <= u <= |s|
    ensures Count('\\', s, u, |s|) <= Count('\\', s, t, |s|)
    decreases u - t
  {
    if t < u {
      CountFrom(s, t + 1, u);
    }
  }

  /** Behind a star the code asks for a backslash in the subject for each one in the pattern. */
  lemma {:induction false} MatchesNeeds(nocase: bool, p: string, i: nat, j: nat, s: string, t: nat)
    requires i <= j <= |p| && t <= |s| && Matches(nocase, p, i, j, s, t)
    ensures Count('\\', p, i, j) <= Count('\\', s, t, |s|)
    decreases j - i
  {
    if i < j {
      if p[i] == '*' {
        assert MatchesLater(nocase, p, i + 1, j, s, t);
        var u :| t <= u <= |s| && Matches(nocase, p, i + 1, j, s, u);
        MatchesNeeds(nocase, p, i + 1, j, s, u);
        CountFrom(s, t, u);
      } else {
        MatchesNeeds(nocase, p, i + 1, j, s, t + 1);
      }
    }
  }

  /** A subject that the comment's reading of [i, j) accepts. */
  function Sample(p: string, i: nat, j: nat): string
    requires i <= j <= |p|
    decreases j - i
  {
    if i == j then ""
    else if p[i] == '*' then Sample(p, i + 1, j)
    else if p[i] == '\\' then if i + 1 == j then "" else [p[i + 1]] + Sample(p, i + 2, j)
    else [if p[i] == '?' then 'a' else p[i]] + Sample(p, i + 1, j)
  }

  /** It has at most half as many backslashes. */
  lemma {:induction false} SampleSlashes(p: string, i: nat, j: nat)
    requires i <= j <= |p|
    ensures 2 * Count('\\', Sample(p, i, j), 0, |Sample(p, i, j)|) <= Count('\\', p, i, j)
    decreases j - i
  {
    if i < j {
      if p[i] == '*' {
        SampleSlashes(p, i + 1, j);
      } else if p[i] == '\\' {
        if i + 1 < j {
          SampleSlashes(p, i + 2, j);
          CountCons('\\', p[i + 1], Sample(p, i + 2, j));
        }
      } else {
        SampleSlashes(p, i + 1, j);
        CountCons('\\', if p[i] == '?' then 'a' else p[i], Sample(p, i + 1, j));
      }
    }
  }

  lemma CountCons(d: char, c: char, w: string)
    ensures Count(d, [c] + w, 0, |w| + 1) == (if c == d then 1 else 0) + Count(d, w, 0, |w|)
  {
    CountBehind(d, [c], w, 0);
  }

  lemma {:induction false} CountBehind(d: char, pre: string, w: string, k: nat)
    requires k <= |w|
    ensures Count(d, pre + w, |pre| + k, |pre + w|) == Count(d, w, k, |w|)
    decreases |w| - k
  {
    if k < |w| {
      CountBehind(d, pre, w, k + 1);
    }
  }

  /** The last backslash of [i, j) escapes something, or ends the pattern. */
  predicate Closed(p: string, i: nat, j: nat)
    requires i <= j <= |p|
    decreases j - i
  {
    if i == j then true
    else if p[i] == '\\' then if i + 1 == j then j == |p| else Closed(p, i + 2, j)
    else Closed(p, i + 1, j)
  }

  lemma {:induction false} WrittenClosed(p: string, a: nat)
    requires a <= |p|
    ensures Closed(p, a, WrittenEnd(p, a))
    decreases |p| - a
  {
    if a < |p| && p[a] != '|' {
      if p[a] != '\\' {
        WrittenClosed(p, a + 1);
      } else if a + 1 < |p| {
        WrittenClosed(p, a + 2);
      }
    }
  }

  lemma NextSample(pre: string, c: char, w: string)
    ensures pre + ([c] + w) == (pre + [c]) + w && |pre + [c]| == |pre| + 1
  {
  }

  lemma {:induction false} SampleRead(nocase: bool, p: string, i: nat, j: nat, pre: string)
    requires i <= j <= |p| && Closed(p, i, j)
    ensures Reads(nocase, p, i, j, pre + Sample(p, i, j), |pre|)
    decreases j - i
  {
    if i < j {
      if p[i] == '*' {
        SampleRead(nocase, p, i + 1, j, pre);
        assert ReadsLater(nocase, p, i + 1, j, pre + Sample(p, i, j), |pre|);
      } else if p[i] == '\\' {
        if i + 1 < j {
          SampleRead(nocase, p, i + 2, j, pre + [p[i + 1]]);
          NextSample(pre, p[i + 1], Sample(p, i + 2, j));
        }
      } else {
        var c := if p[i] == '?' then 'a' else p[i];
        SampleRead(nocase, p, i + 1, j, pre + [c]);
        NextSample(pre, c, Sample(p, i + 1, j));
      }
    }
  }

  lemma {:induction false} SampleMissed(nocase: bool, p: string, i: nat, j: nat, pre: string)
    requires i <= j <= |p| && Late(p, i, j)
    ensures !Fits(nocase, p, i, j, pre + Sample(p, i, j), |pre|)
    decreases j - i
  {
    var s := pre + Sample(p, i, j);
    if p[i] == '*' {
      if Fits(nocase, p, i, j, s, |pre|) {
        MatchesNeeds(nocase, p, i, j, s, |pre|);
        CountBehind('\\', pre, Sample(p, i, j), 0);
        SampleSlashes(p, i, j);
      }
    } else if p[i] == '\\' {
      SampleMissed(nocase, p, i + 2, j, pre + [p[i + 1]]);
      NextSample(pre, p[i + 1], Sample(p, i + 2, j));
    } else {
      var c := if p[i] == '?' then 'a' else p[i];
      SampleMissed(nocase, p, i + 1, j, pre + [c]);
      NextSample(pre, c, Sample(p, i + 1, j));
    }
  }

  lemma BarFreeCons(c: char, w: string)
    requires c != '|' && '|' !in w
    ensures '|' !in [c] + w
  {
  }

  lemma {:induction false} SampleBarFree(p: string, i: nat, j: nat)
    requires i <= j <= |p| && forall x :: i <= x < j ==> p[x] != '|'
    ensures '|' !in Sample(p, i, j)
    decreases j - i
  {
    if i < j {
      if p[i] == '*' {
        SampleBarFree(p, i + 1, j);
      } else if p[i] == '\\' {
        if i + 1 < j {
          SampleBarFree(p, i + 2, j);
          BarFreeCons(p[i + 1], Sample(p, i + 2, j));
        }
      } else {
        SampleBarFree(p, i + 1, j);
        BarFreeCons(if p[i] == '?' then 'a' else p[i], Sample(p, i + 1, j));
      }
    }
  }

  // ---------- An escaped bar makes them differ ----------

  /** The comment's reading takes an escaped bar for a character of the subject. */
  lemma {:induction false} BarNeeded(nocase: bool, p: string, i: nat, j: nat, s: string, t: nat, x: nat)
    requires i <= x < j <= |p| && t <= |s| && p[x] == '|' && Reads(nocase, p, i, j, s, t)
    ensures '|' in s
    decreases j - i
  {
    if p[i] == '*' {
      assert ReadsLater(nocase, p, i + 1, j, s, t);
      var u :| t <= u <= |s| && Reads(nocase, p, i + 1, j, s, u);
      BarNeeded(nocase, p, i + 1, j, s, u, x);
    } else {
      assert s[t] in s;
      FoldBar(nocase, s[t]);
      if p[i] == '\\' {
        if x > i + 1 {
          BarNeeded(nocase, p, i + 2, j, s, t + 1, x);
        }
      } else if x > i {
        BarNeeded(nocase, p, i + 1, j, s, t + 1, x);
      }
    }
  }

  /** Behind an escaped bar the comment still reads the same alternative. */
  lemma {:induction false} SameWrittenEnd(p: string, a: nat)
    requires a <= |p| && AltEnd(p, a) < WrittenEnd(p, a)
    ensures WrittenEnd(p, AltEnd(p, a) + 1) == WrittenEnd(p, a)
    decreases |p| - a
  {
    if p[a] != '\\' {
      SameWrittenEnd(p, a + 1);
    } else if p[a + 1] != '|' {
      assert AltEnd(p, a) == AltEnd(p, a + 1) == AltEnd(p, a + 2);
      SameWrittenEnd(p, a + 2);
    }
  }

  lemma {:induction false} AltEndFirst(p: string, a: nat)
    requires a <= |p|
    ensures AltEnd(p, a) <= WrittenEnd(p, a)
    decreases |p| - a
  {
    if a < |p| && p[a] != '|' {
      if p[a] != '\\' {
        AltEndFirst(p, a + 1);
      } else if a + 1 < |p| && p[a + 1] != '|' {
        AltEndFirst(p, a + 2);
      }
    }
  }

  /** The last piece of an alternative, as the code cuts it. */
  lemma {:induction false} LastPiece(p: string, a: nat) returns (c: nat)
    requires a <= |p| && (a == 0 || p[a - 1] == '|')
    ensures a <= c <= WrittenEnd(p, a) && Alternative(p, c, WrittenEnd(p, a)) && WrittenEnd(p, c) == WrittenEnd(p, a)
    decreases |p| - a
  {
    AltEndFirst(p, a);
    if AltEnd(p, a) == WrittenEnd(p, a) {
      c := a;
    } else {
      SameWrittenEnd(p, a);
      c := LastPiece(p, AltEnd(p, a) + 1);
    }
  }

  /** A subject that the code accepts for [i, j). */
  function Accepted(p: string, i: nat, j: nat): string
    requires i <= j <= |p|
    decreases j - i
  {
    if i == j then ""
    else if p[i] == '*' then Letters(p, i + 1, j)
    else if p[i] == '\\' then if i + 1 == j then "" else [p[i + 1]] + Accepted(p, i + 2, j)
    else [if p[i] == '?' then 'a' else p[i]] + Accepted(p, i + 1, j)
  }

  /** The same behind a star. */
  function Letters(p: string, i: nat, j: nat): string
    requires i <= j <= |p|
    decreases j - i
  {
    if i == j then ""
    else if p[i] == '*' then Letters(p, i + 1, j)
    else [if p[i] == '?' then 'a' else p[i]] + Letters(p, i + 1, j)
  }

  lemma {:induction false} LettersMatch(nocase: bool, p: string, i: nat, j: nat, pre: string)
    requires i <= j <= |p|
    ensures Matches(nocase, p, i, j, pre + Letters(p, i, j), |pre|)
    decreases j - i
  {
    if i < j {
      if p[i] == '*' {
        LettersMatch(nocase, p, i + 1, j, pre);
        assert MatchesLater(nocase, p, i + 1, j, pre + Letters(p, i, j), |pre|);
      } else {
        var c := if p[i] == '?' then 'a' else p[i];
        LettersMatch(nocase, p, i + 1, j, pre + [c]);
        NextSample(pre, c, Letters(p, i + 1, j));
      }
    }
  }

  lemma {:induction false} AcceptedFits(nocase: bool, p: string, i: nat, j: nat, pre: string)
    requires i <= j <= |p| && Closed(p, i, j)
    ensures Fits(nocase, p, i, j, pre + Accepted(p, i, j), |pre|)
    decreases j - i
  {
    if i < j {
      if p[i] == '*' {
        LettersMatch(nocase, p, i + 1, j, pre);
        assert MatchesLater(nocase, p, i + 1, j, pre + Accepted(p, i, j), |pre|);
      } else if p[i] == '\\' {
        if i + 1 < j {
          AcceptedFits(nocase, p, i + 2, j, pre + [p[i + 1]]);
          NextSample(pre, p[i + 1], Accepted(p, i + 2, j));
        }
      } else {
        var c := if p[i] == '?' then 'a' else p[i];
        AcceptedFits(nocase, p, i + 1, j, pre + [c]);
        NextSample(pre, c, Accepted(p, i + 1, j));
      }
    }
  }

  lemma {:induction false} LettersBarFree(p: string, i: nat, j: nat)
    requires i <= j <= |p| && forall x :: i <= x < j ==> p[x] != '|'
    ensures '|' !in Letters(p, i, j)
    decreases j - i
  {
    if i < j {
      LettersBarFree(p, i + 1, j);
      if p[i] != '*' {
        BarFreeCons(if p[i] == '?' then 'a' else p[i], Letters(p, i + 1, j));
      }
    }
  }

  lemma {:induction false} AcceptedBarFree(p: string, i: nat, j: nat)
    requires i <= j <= |p| && forall x :: i <= x < j ==> p[x] != '|'
    ensures '|' !in Accepted(p, i, j)
    decreases j - i
  {
    if i < j {
      if p[i] == '*' {
        LettersBarFree(p, i + 1, j);
      } else if p[i] == '\\' {
        if i + 1 < j {
          AcceptedBarFree(p, i + 2, j);
          BarFreeCons(p[i + 1], Accepted(p, i + 2, j));
        }
      } else {
        AcceptedBarFree(p, i + 1, j);
        BarFreeCons(if p[i] == '?' then 'a' else p[i], Accepted(p, i + 1, j));
      }
    }
  }

  // ---------- A question mark behind a star makes them differ on subjects with bars ----------

  /** A subject that the comment's reading of [i, j) accepts, with a bar for each question mark behind
      the first star. */
  function Barred(p: string, i: nat, j: nat): string
    requires i <= j <= |p|
    decreases j - i
  {
    if i == j then ""
    else if p[i] == '*' then BarLetters(p, i + 1, j)
    else if p[i] == '\\' then if i + 1 == j then "" else [p[i + 1]] + Barred(p, i + 2, j)
    else [if p[i] == '?' then 'a' else p[i]] + Barred(p, i + 1, j)
  }

  function BarLetters(p: string, i: nat, j: nat): string
    requires i <= j <= |p|
    decreases j - i
  {
    if i == j then ""
    else if p[i] == '*' then BarLetters(p, i + 1, j)
    else [if p[i] == '?' then '|' else p[i]] + BarLetters(p, i + 1, j)
  }

  lemma {:induction false} BarLettersRead(nocase: bool, p: string, i: nat, j: nat, pre: string)
    requires i <= j <= |p| && Count('\\', p, i, j) == 0
    ensures Reads(nocase, p, i, j, pre + BarLetters(p, i, j), |pre|)
    decreases j - i
  {
    if i < j {
      if p[i] == '*' {
        BarLettersRead(nocase, p, i + 1, j, pre);
        assert ReadsLater(nocase, p, i + 1, j, pre + BarLetters(p, i, j), |pre|);
      } else {
        var c := if p[i] == '?' then '|' else p[i];
        BarLettersRead(nocase, p, i + 1, j, pre + [c]);
        NextSample(pre, c, BarLetters(p, i + 1, j));
      }
    }
  }

  lemma {:induction false} BarredRead(nocase: bool, p: string, i: nat, j: nat, pre: string)
    requires i <= j <= |p| && Closed(p, i, j) && !Late(p, i, j)
    ensures Reads(nocase, p, i, j, pre + Barred(p, i, j), |pre|)
    decreases j - i
  {
    if i < j {
      if p[i] == '*' {
        BarLettersRead(nocase, p, i + 1, j, pre);
        assert ReadsLater(nocase, p, i + 1, j, pre + Barred(p, i, j), |pre|);
      } else if p[i] == '\\' {
        if i + 1 < j {
          BarredRead(nocase, p, i + 2, j, pre + [p[i + 1]]);
          NextSample(pre, p[i + 1], Barred(p, i + 2, j));
        }
      } else {
        var c := if p[i] == '?' then 'a' else p[i];
        BarredRead(nocase, p, i + 1, j, pre + [c]);
        NextSample(pre, c, Barred(p, i + 1, j));
      }
    }
  }

  lemma {:induction false} BarsBetween(s: string, t: nat, u: nat)
    requires t <= u <= |s|
    ensures Count('|', s, t, |s|) <= u - t + Count('|', s, u, |s|)
    decreases u - t
  {
    if t < u {
      BarsBetween(s, t + 1, u);
    }
  }

  /** Behind a star each character of the pattern asks for one of the subject that is no bar. */
  lemma {:induction false} MatchesAsks(nocase: bool, p: string, i: nat, j: nat, s: string, t: nat)
    requires i <= j == |p| && t <= |s| && Matches(nocase, p, i, j, s, t) && forall x :: i <= x < j ==> p[x] != '|'
    ensures t + |BarLetters(p, i, j)| + Count('|', s, t, |s|) <= |s|
    decreases j - i
  {
    if i < j {
      if p[i] == '*' {
        assert MatchesLater(nocase, p, i + 1, j, s, t);
        var u :| t <= u <= |s| && Matches(nocase, p, i + 1, j, s, u);
        MatchesAsks(nocase, p, i + 1, j, s, u);
        BarsBetween(s, t, u);
      } else {
        FoldBar(nocase, p[i]);
        MatchesAsks(nocase, p, i + 1, j, s, t + 1);
      }
    }
  }

  lemma {:induction false} BarLettersBars(p: string, i: nat, j: nat)
    requires i <= j <= |p|
    ensures Count('|', BarLetters(p, i, j), 0, |BarLetters(p, i, j)|) >= Count('?', p, i, j)
    decreases j - i
  {
    if i < j {
      BarLettersBars(p, i + 1, j);
      if p[i] != '*' {
        CountCons('|', if p[i] == '?' then '|' else p[i], BarLetters(p, i + 1, j));
      }
    }
  }

  lemma {:induction false} BarredMissed(nocase: bool, p: string, i: nat, j: nat, pre: string)
    requires i <= j == |p| && MarksBehind(p, i, j) > 0 && forall x :: i <= x < j ==> p[x] != '|'
    ensures !Fits(nocase, p, i, j, pre + Barred(p, i, j), |pre|)
    decreases j - i
  {
    var s := pre + Barred(p, i, j);
    if p[i] == '*' {
      if Fits(nocase, p, i, j, s, |pre|) {
        MatchesAsks(nocase, p, i, j, s, |pre|);
        CountBehind('|', pre, Barred(p, i, j), 0);
        BarLettersBars(p, i + 1, j);
      }
    } else if p[i] == '\\' {
      BarredMissed(nocase, p, i + 2, j, pre + [p[i + 1]]);
      NextSample(pre, p[i + 1], Barred(p, i + 2, j));
    } else {
      var c := if p[i] == '?' then 'a' else p[i];
      BarredMissed(nocase, p, i + 1, j, pre + [c]);
      NextSample(pre, c, Barred(p, i + 1, j));
    }
  }

  // ---------- The exact condition ----------

  ghost predicate Agree(nocase: bool, p: string, a: nat, s: string)
    requires a <= |p|
  {
    Reads(nocase, p, a, WrittenEnd(p, a), s, 0) <==> SomePiece(nocase, p, a, WrittenEnd(p, a), s)
  }

  lemma HonouredAgree(nocase: bool, p: string, a: nat, s: string)
    requires a <= |p| && (a == 0 || p[a - 1] == '|') && Honoured(p, a) && '|' !in s
    ensures Agree(nocase, p, a, s)
  {
    var b := WrittenEnd(p, a);
    ReadsFits(nocase, p, a, b, s, 0);
    assert Alternative(p, a, b);
    if Fits(nocase, p, a, b, s, 0) {
      assert Piece(nocase, p, a, b, s, a, b);
    }
    if c, d :| Piece(nocase, p, a, b, s, c, d) {
      AlternativeAt(p, c, d);
      assert c == a;
    }
  }

  /** A subject that tells the readings apart. */
  lemma NotHonoured(nocase: bool, p: string, a: nat) returns (s: string)
    requires a <= |p| && (a == 0 || p[a - 1] == '|') && !Honoured(p, a)
    ensures '|' !in s && !Agree(nocase, p, a, s)
  {
    var b := WrittenEnd(p, a);
    AltEndFirst(p, a);
    WrittenClosed(p, a);
    if AltEnd(p, a) < b {
      var c := LastPiece(p, a);
      WrittenClosed(p, c);
      s := Accepted(p, c, b);
      AcceptedBarFree(p, c, b);
      AcceptedFits(nocase, p, c, b, "");
      assert "" + s == s && Piece(nocase, p, a, b, s, c, b);
      if Reads(nocase, p, a, b, s, 0) {
        BarNeeded(nocase, p, a, b, s, 0, AltEnd(p, a));
      }
    } else {
      s := Sample(p, a, b);
      SampleBarFree(p, a, b);
      SampleRead(nocase, p, a, b, "");
      SampleMissed(nocase, p, a, b, "");
      assert "" + s == s;
      if c, d :| Piece(nocase, p, a, b, s, c, d) {
        AlternativeAt(p, c, d);
      }
    }
  }

  /** Code and comment read an alternative alike, for every subject without a bar, if and only if none
      of its backslashes stands before a bar or behind its first star. */
  lemma ReadingsAgree(nocase: bool, p: string, a: nat)
    requires a <= |p| && (a == 0 || p[a - 1] == '|')
    ensures (forall s :: '|' !in s ==> Agree(nocase, p, a, s)) <==> Honoured(p, a)
  {
    if Honoured(p, a) {
      forall s | '|' !in s
        ensures Agree(nocase, p, a, s)
      {
        HonouredAgree(nocase, p, a, s);
      }
    } else {
      var s := NotHonoured(nocase, p, a);
    }
  }

  // ---------- The answer of the code ----------

  lemma {:induction false} JudgeFrom(nocase: bool, p: string, a: nat, s: string)
    requires a <= |p| && AllHonoured(p, a) && '|' !in s
    ensures Judge(nocase, p, a, s) != Overrun ==>
              Judge(nocase, p, a, s) == if Intended(nocase, p, a, s) then Yes else No
    decreases |p| - a
  {
    var b := AltEnd(p, a);
    ReadsFits(nocase, p, a, b, s, 0);
    if b < |p| {
      JudgeFrom(nocase, p, b + 1, s);
    }
  }

  /** For a pattern all of whose escapes are honoured the code answers what the comment says, unless
      it overruns. */
  lemma AnswerIntended(nocase: bool, p: string, s: string)
    requires AllHonoured(p, 0) && '|' !in s
    ensures Answer(nocase, p, 0, s) == (if Intended(nocase, p, 0, s) then Yes else No)
       <==> !OverrunsFirst(nocase, p, s)
  {
    AnswerJudge(nocase, p, 0, s);
    JudgeMeans(nocase, p, s);
    JudgeFrom(nocase, p, 0, s);
  }

  /** Code and comment accept the same subject. */
  ghost predicate SameAnswer(nocase: bool, p: string, s: string) {
    Answer(nocase, p, 0, s) == Yes <==> Reads(nocase, p, 0, |p|, s, 0)
  }

  lemma BarFreePattern(nocase: bool, p: string, s: string)
    requires '|' !in p
    ensures AltEnd(p, 0) == WrittenEnd(p, 0) == |p|
    ensures Answer(nocase, p, 0, s) == Yes <==> Fits(nocase, p, 0, |p|, s, 0)
  {
    assert AltEnd(p, 0) == |p|;
    AltEndFirst(p, 0);
    AnswerJudge(nocase, p, 0, s);
    if Overruns(nocase, p, 0, |p|, s, 0) {
      OverrunsNoMatch(nocase, p, 0, |p|, s, 0);
    }
  }

  /** For a pattern without bars the code accepts what the comment says, for every subject without a
      bar, if and only if no backslash stands behind the first star; and for every subject at all if
      and only if no question mark does, either. */
  lemma AnswerEscapes(nocase: bool, p: string)
    requires '|' !in p
    ensures (forall s :: '|' !in s ==> SameAnswer(nocase, p, s)) <==> !Late(p, 0, |p|)
    ensures (forall s :: SameAnswer(nocase, p, s)) <==> !Late(p, 0, |p|) && MarksBehind(p, 0, |p|) == 0
  {
    var n := |p|;
    forall s | !Late(p, 0, n) && ('|' !in s || MarksBehind(p, 0, n) == 0)
      ensures SameAnswer(nocase, p, s)
    {
      BarFreePattern(nocase, p, s);
      ReadsFits(nocase, p, 0, n, s, 0);
    }
    if Late(p, 0, n) {
      LateDiffers(nocase, p);
    } else if MarksBehind(p, 0, n) > 0 {
      MarksDiffer(nocase, p);
    }
  }

  lemma LateDiffers(nocase: bool, p: string)
    requires '|' !in p && Late(p, 0, |p|)
    ensures exists s :: '|' !in s && !SameAnswer(nocase, p, s)
  {
    var s := Sample(p, 0, |p|);
    BarFreePattern(nocase, p, s);
    WrittenClosed(p, 0);
    SampleBarFree(p, 0, |p|);
    SampleRead(nocase, p, 0, |p|, "");
    SampleMissed(nocase, p, 0, |p|, "");
    assert "" + s == s;
    assert !SameAnswer(nocase, p, s);
  }

  lemma MarksDiffer(nocase: bool, p: string)
    requires '|' !in p && !Late(p, 0, |p|) && MarksBehind(p, 0, |p|) > 0
    ensures exists s :: !SameAnswer(nocase, p, s)
  {
    var s := Barred(p, 0, |p|);
    BarFreePattern(nocase, p, s);
    WrittenClosed(p, 0);
    BarredRead(nocase, p, 0, |p|, "");
    BarredMissed(nocase, p, 0, |p|, "");
    assert "" + s == s;
    assert !SameAnswer(nocase, p, s);
  }

  /** The question mark that `*\?` asks for at the end is not accepted, and `\|b` accepts a subject
      without the bar it asks for. */
  lemma EscapeExamples()
    ensures Intended(false, "*\\?", 0, "?") && Answer(false, "*\\?", 0, "?") == No
    ensures !Intended(false, "\\|b", 0, "b") && Answer(false, "\\|b", 0, "b") == Yes
  {
    var p, q := "*\\?", "\\|b";
    assert Late(p, 0, 3) by {
      assert Count('\\', p, 2, 3) == 0;
    }
    SampleRead(false, p, 0, 3, "");
    SampleMissed(false, p, 0, 3, "");
    assert Sample(p, 3, 3) == "" && Sample(p, 1, 3) == "?" && "" + "?" == "?";
    assert WrittenEnd(p, 0) == WrittenEnd(p, 3) == 3 && AltEnd(p, 0) == 3;
    assert WrittenEnd(q, 0) == WrittenEnd(q, 3) == 3 && AltEnd(q, 0) == 1 && AltEnd(q, 2) == 3;
    assert Fits(false, q, 3, 3, "b", 1);
    AnswerJudge(false, p, 0, "?");
    AnswerJudge(false, q, 0, "b");
  }
}
