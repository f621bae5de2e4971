module Matcher {
  // The rinetd address matcher: patterns of literal characters, `?` and `*`, with `|` between
  // alternatives and a backslash before characters that stand for themselves. The code searches
  // greedily for each word between two stars; it is proved against the declarative meaning of a
  // pattern.

  /** Overrun: the code moves past the end of the subject. */
  datatype Verdict = Yes | No | Overrun

  // ---------- What a pattern means ----------

  function Lower(c: char): char {
    if 'A' <= c <= 'Z' then ((c as int) + 32) as char else c
  }

  /** CASE. */
  function Fold(nocase: bool, c: char): char {
    if nocase then Lower(c) else c
  }

  /** A character of a pattern, other than a star, accepts one of the subject. */
  predicate Accepts(nocase: bool, c: char, x: char) {
    c == '?' || Fold(nocase, c) == Fold(nocase, x)
  }

  /** The same behind a star: there a question mark does not accept a bar. */
  predicate AcceptsBehind(nocase: bool, c: char, x: char) {
    Fold(nocase, c) == Fold(nocase, x) || (c == '?' && x != '|')
  }

  /** The subject ends at t for an alternative that ends at j: a bar of the subject counts as the one
      that ends the alternative. */
  predicate EndsAt(p: string, j: nat, s: string, t: nat) {
    t == |s| || (t < |s| && s[t] == '|' && j < |p| && p[j] == '|')
  }

  /** The part [i, j) of pattern p matches the subject s from t on, a star being before it. */
  ghost predicate Matches(nocase: bool, p: string, i: nat, j: nat, s: string, t: nat)
    requires i <= j <= |p| && t <= |s|
    decreases j - i, 0
  {
    if i == j then EndsAt(p, j, s, t)
    else if p[i] == '*' then MatchesLater(nocase, p, i + 1, j, s, t)
    else t < |s| && AcceptsBehind(nocase, p[i], s[t]) && Matches(nocase, p, i + 1, j, s, t + 1)
  }

  /** It matches from some place at t or later. */
  ghost predicate MatchesLater(nocase: bool, p: string, i: nat, j: nat, s: string, t: nat)
    requires i <= j <= |p| && t <= |s|
    decreases j - i, 1
  {
    exists u :: t <= u <= |s| && Matches(nocase, p, i, j, s, u)
  }

  /** It matches from t to the end, no star being before it. There a backslash makes the next
      character a literal; it ends the whole pattern but no other alternative. */
  ghost predicate Fits(nocase: bool, p: string, i: nat, j: nat, s: string, t: nat)
    requires i <= j <= |p| && t <= |s|
    decreases j - i
  {
    if i == j then t == |s|
    else if p[i] == '*' then Matches(nocase, p, i, j, s, t)
    else if p[i] == '\\' then
      if i + 1 == j then j == |p| && t == |s|
      else t < |s| && Fold(nocase, p[i + 1]) == Fold(nocase, s[t]) && Fits(nocase, p, i + 2, j, s, t + 1)
    else t < |s| && Accepts(nocase, p[i], s[t]) && Fits(nocase, p, i + 1, j, s, t + 1)
  }

  /** [a, b) is one of the alternatives of p. */
  ghost predicate Alternative(p: string, a: nat, b: nat) {
    && a <= b <= |p| && (a == 0 || p[a - 1] == '|') && (b == |p| || p[b] == '|')
    && forall i :: a <= i < b ==> p[i] != '|'
  }

  /** The part before the first star fits the rest of the subject and then asks for one more
      character. */
  ghost predicate Overruns(nocase: bool, p: string, i: nat, j: nat, s: string, t: nat)
    requires i <= j <= |p| && t <= |s|
    decreases j - i
  {
    && i < j && p[i] != '*'
    && if p[i] == '\\' then
         i + 1 < j && t < |s| && Fold(nocase, p[i + 1]) == Fold(nocase, s[t]) && Overruns(nocase, p, i + 2, j, s, t + 1)
       else if t == |s| then p[i] == '?'
       else Accepts(nocase, p[i], s[t]) && Overruns(nocase, p, i + 1, j, s, t + 1)
  }

  /** The end of the alternative that a lies in. */
  function AltEnd(p: string, a: nat): (b: nat)
    requires a <= |p|
    ensures a <= b <= |p| && (b == |p| || p[b] == '|') && forall i :: a <= i < b ==> p[i] != '|'
    decreases |p| - a
  {
    if a == |p| || p[a] == '|' then a else AltEnd(p, a + 1)
  }

  /** The first alternative from a on that matches or overruns decides. */
  ghost function Judge(nocase: bool, p: string, a: nat, s: string): Verdict
    requires a <= |p|
    decreases |p| - a
  {
    var b := AltEnd(p, a);
    if Overruns(nocase, p, a, b, s, 0) then Overrun
    else if Fits(nocase, p, a, b, s, 0) then Yes
    else if b == |p| then No
    else Judge(nocase, p, b + 1, s)
  }

  // ---------- Subjects with bars ----------

  /** What becomes of an alternative: it matches, overruns, or fails with the given end of an
      alternative still to come. */
  datatype Trial = Success | Past | Miss(end: nat)

  /** The pattern from i on against the subject from t on, no star being before i. A bar of the
      subject is taken for a bar of the pattern, and the comparison runs on behind it. */
  ghost function Tried(nocase: bool, p: string, i: nat, s: string, t: nat): (r: Trial)
    requires i <= |p| && t <= |s|
    ensures r.Miss? ==> i <= r.end <= |p|
    decreases |p| - i
  {
    var miss := Miss(AltEnd(p, i));
    if i == |p| then if t == |s| then Success else miss
    else if p[i] == '*' then if Matches(nocase, p, i, AltEnd(p, i), s, t) then Success else miss
    else if p[i] == '\\' then
      if i + 1 == |p| && t == |s| then Success
      else if i + 1 < |p| && t < |s|
        && Fold(nocase, p[i + 1]) == Fold(nocase, s[t]) then Tried(nocase, p, i + 2, s, t + 1)
      else Miss(AltEnd(p, i + 1))
    else if p[i] == '?' then if t == |s| then Past else Tried(nocase, p, i + 1, s, t + 1)
    else if p[i] == '|' && t == |s| then Success
    else if t < |s| && Fold(nocase, p[i]) == Fold(nocase, s[t]) then Tried(nocase, p, i + 1, s, t + 1)
    else miss
  }

  /** What a trial means for the whole pattern. */
  ghost function Outlook(nocase: bool, p: string, r: Trial, s: string): Verdict
    requires r.Miss? ==> r.end <= |p|
    decreases if r.Miss? then |p| - r.end else 0, 0
  {
    match r
    case Success => Yes
    case Past => Overrun
    case Miss(b) => if b == |p| then No else Answer(nocase, p, b + 1, s)
  }

  /** The alternatives are tried in turn, each one from the beginning of the subject. */
  ghost function Answer(nocase: bool, p: string, a: nat, s: string): Verdict
    requires a <= |p|
    decreases |p| - a, 1
  {
    Outlook(nocase, p, Tried(nocase, p, a, s, 0), s)
  }

  /** Without bars in the subject, or ahead in the pattern, a trial stays inside its alternative. */
  lemma {:induction false} TriedFits(nocase: bool, p: string, i: nat, s: string, t: nat)
    requires i <= |p| && t <= |s| && ('|' !in s || AltEnd(p, i) == |p|)
    ensures var (j, r) := (AltEnd(p, i), Tried(nocase, p, i, s, t));
            && (r.Success? <==> Fits(nocase, p, i, j, s, t)) && (r.Past? <==> Overruns(nocase, p, i, j, s, t))
            && (r.Miss? ==> r.end == j)
    decreases |p| - i
  {
    if i < |p| && t < |s| {
      assert s[t] in s;
      FoldBar(nocase, s[t]);
      if p[i] == '\\' && i + 1 < |p| {
        TriedFits(nocase, p, i + 2, s, t + 1);
      }
      TriedFits(nocase, p, i + 1, s, t + 1);
    }
  }

  /** Then the alternatives are what Judge says. */
  lemma {:induction false} AnswerJudge(nocase: bool, p: string, a: nat, s: string)
    requires a <= |p| && ('|' !in s || AltEnd(p, a) == |p|)
    ensures Answer(nocase, p, a, s) == Judge(nocase, p, a, s)
    decreases |p| - a
  {
    TriedFits(nocase, p, a, s, 0);
    var b := AltEnd(p, a);
    if Overruns(nocase, p, a, b, s, 0) {
      OverrunsNoMatch(nocase, p, a, b, s, 0);
    }
    if b < |p| {
      AnswerJudge(nocase, p, b + 1, s);
    }
  }

  // ---------- Greedy search is enough ----------

  /** The star-free part [i, k) of p stands in s at u. */
  ghost predicate WordAt(nocase: bool, p: string, i: nat, k: nat, s: string, u: nat)
    requires i <= k <= |p|
  {
    u + k - i <= |s| && forall x :: i <= x < k ==> AcceptsBehind(nocase, p[x], s[u + x - i])
  }

  predicate StarFree(p: string, i: nat, k: nat)
    requires i <= k <= |p|
  {
    forall x :: i <= x < k ==> p[x] != '*'
  }

  lemma {:induction false} MatchesWord(nocase: bool, p: string, i: nat, k: nat, j: nat, s: string, t: nat)
    requires i <= k <= j <= |p| && t <= |s| && StarFree(p, i, k)
    ensures Matches(nocase, p, i, j, s, t) <==> WordAt(nocase, p, i, k, s, t) && Matches(nocase, p, k, j, s, t + k - i)
    decreases k - i
  {
    if i < k && t < |s| {
      MatchesWord(nocase, p, i + 1, k, j, s, t + 1);
    }
  }

  /** A part that begins with a star matches a longer subject too. */
  lemma StarMonotone(nocase: bool, p: string, i: nat, j: nat, s: string, t: nat, t': nat)
    requires i < j <= |p| && p[i] == '*' && t' <= t <= |s| && Matches(nocase, p, i, j, s, t)
    ensures Matches(nocase, p, i, j, s, t')
  {
  }

  /** The word [i, k) stands at u, at the end of the subject if it ends the alternative. */
  ghost predicate Hit(nocase: bool, p: string, i: nat, k: nat, j: nat, s: string, u: nat)
    requires i <= k <= j <= |p|
  {
    WordAt(nocase, p, i, k, s, u) && (k == j ==> EndsAt(p, j, s, u + k - i))
  }

  /** After a star, the first place of the next word is as good as any. */
  lemma FirstHitIsEnough(nocase: bool, p: string, i: nat, k: nat, j: nat, s: string, t: nat, u: nat)
    requires 0 < i <= k <= j <= |p| && p[i - 1] == '*' && StarFree(p, i, k) && (k < j ==> p[k] == '*')
    requires t <= u <= |s| && Hit(nocase, p, i, k, j, s, u)
    requires forall v :: t <= v < u ==> !Hit(nocase, p, i, k, j, s, v)
    ensures Matches(nocase, p, i - 1, j, s, t) <==> Matches(nocase, p, k, j, s, u + k - i)
  {
    if Matches(nocase, p, k, j, s, u + k - i) {
      MatchesWord(nocase, p, i, k, j, s, u);
      assert MatchesLater(nocase, p, i, j, s, t);
    }
    if Matches(nocase, p, i - 1, j, s, t) {
      assert MatchesLater(nocase, p, i, j, s, t);
      var v :| t <= v <= |s| && Matches(nocase, p, i, j, s, v);
      MatchesWord(nocase, p, i, k, j, s, v);
      assert Hit(nocase, p, i, k, j, s, v);
      if k < j {
        StarMonotone(nocase, p, k, j, s, v + k - i, u + k - i);
      }
    }
  }

  lemma NoHitNoMatch(nocase: bool, p: string, i: nat, k: nat, j: nat, s: string, t: nat)
    requires 0 < i <= k <= j <= |p| && p[i - 1] == '*' && StarFree(p, i, k) && t <= |s|
    requires forall v :: t <= v <= |s| ==> !Hit(nocase, p, i, k, j, s, v)
    ensures !Matches(nocase, p, i - 1, j, s, t)
  {
    if Matches(nocase, p, i - 1, j, s, t) {
      assert MatchesLater(nocase, p, i, j, s, t);
      var v :| t <= v <= |s| && Matches(nocase, p, i, j, s, v);
      MatchesWord(nocase, p, i, k, j, s, v);
      assert Hit(nocase, p, i, k, j, s, v);
    }
  }

  // ---------- The code ----------

  predicate Terminator(p: string, k: nat) {
    k >= |p| || p[k] == '|'
  }

  /** The comparison of the subject at t with the pattern at k in the search for a word; either
      may be at its end. */
  predicate Agree(nocase: bool, p: string, k: nat, s: string, t: nat) {
    || (t >= |s| && k >= |p|) || (t < |s| && k < |p| && Fold(nocase, s[t]) == Fold(nocase, p[k]))
    || (t >= |s| && k < |p| && p[k] == '|')
    || (t < |s| && s[t] != '|' && k < |p| && p[k] == '?')
  }

  /** The search for the word [word, k) from s on. A word that ends the alternative includes its
      terminator. */
  method Search(nocase: bool, pat: string, word: nat, k: nat, sorig: string, s0: nat) returns (found: bool, s: nat)
    requires word <= k <= |pat| && s0 <= |sorig| && (Terminator(pat, k) || pat[k] == '*')
    requires forall x :: word <= x < k ==> pat[x] != '*' && pat[x] != '|'
    ensures found && !Terminator(pat, k) ==> s0 + (k - word) <= s <= |sorig|
    ensures var end := if Terminator(pat, k) then k else k + 1;
      if found then
        exists u :: s0 <= u <= |sorig| && Hit(nocase, pat, word, k, end, sorig, u)
          && (forall v :: s0 <= v < u ==> !Hit(nocase, pat, word, k, end, sorig, v))
          && (!Terminator(pat, k) ==> s == u + k - word)
      else forall v :: s0 <= v <= |sorig| ==> !Hit(nocase, pat, word, k, end, sorig, v)
  {
    ghost var end := if Terminator(pat, k) then k else k + 1;
    var wordLen := if Terminator(pat, k) then k - word + 1 else k - word;
    var wordPos := 0;
    s := s0;
    while wordPos < wordLen
      invariant 0 <= wordPos <= wordLen && s0 <= s - wordPos <= |sorig|
      invariant wordPos <= k - word ==> s <= |sorig|
      invariant forall v :: s0 <= v < s - wordPos ==> !Hit(nocase, pat, word, k, end, sorig, v)
      invariant wordPos <= k - word ==> WordAt(nocase, pat, word, word + wordPos, sorig, s - wordPos)
      invariant wordPos > k - word ==> Hit(nocase, pat, word, k, end, sorig, s - wordPos)
      decreases |sorig| - (s - wordPos), wordLen - wordPos
    {
      if Agree(nocase, pat, word + wordPos, sorig, s) {
        wordPos := wordPos + 1;
        s := s + 1;
      } else {
        s := s - wordPos;
        assert !Hit(nocase, pat, word, k, end, sorig, s);
        if s == |sorig| {
          return false, s;
        }
        s := s + 1;
        wordPos := 0;
      }
    }
    assert Hit(nocase, pat, word, k, end, sorig, s - wordPos);
    found := true;
  }

  datatype Outcome = Matched | Failed | GoOn | Overran

  /** The branch for a star at p: the word after it and its first place in the rest of the
      subject. */
  method Star(nocase: bool, pat: string, p0: nat, sorig: string, s0: nat) returns (out: Outcome, p: nat, s: nat)
    requires p0 < |pat| && pat[p0] == '*' && s0 <= |sorig|
    ensures p0 < p <= |pat| && AltEnd(pat, p) == AltEnd(pat, p0)
    ensures !out.Overran? && (out.GoOn? ==> s <= |sorig| && p < |pat| && pat[p] == '*')
    ensures var b := AltEnd(pat, p0);
      && (out.Matched? ==> Matches(nocase, pat, p0, b, sorig, s0))
      && (out.Failed? ==> !Matches(nocase, pat, p0, b, sorig, s0))
      && (out.GoOn? ==> p < b && (Matches(nocase, pat, p0, b, sorig, s0) <==> Matches(nocase, pat, p, b, sorig, s)))
  {
    p := p0 + 1;
    var word := p;
    while p < |pat| && pat[p] != '*' && pat[p] != '|'
      invariant p0 < p <= |pat|
      invariant forall x :: p0 < x < p ==> pat[x] != '*' && pat[x] != '|'
    {
      p := p + 1;
    }
    ghost var b := AltEnd(pat, p0);
    AltEndSkips(pat, p0, p);
    var found;
    found, s := Search(nocase, pat, word, p, sorig, s0);
    if !found {
      assert forall v :: s0 <= v <= |sorig| ==> !Hit(nocase, pat, word, p, b, sorig, v);
      NoHitNoMatch(nocase, pat, word, p, b, sorig, s0);
      return Failed, p, s;
    }
    ghost var end := if Terminator(pat, p) then p else p + 1;
    ghost var u :| s0 <= u <= |sorig| && Hit(nocase, pat, word, p, end, sorig, u)
        && (forall v :: s0 <= v < u ==> !Hit(nocase, pat, word, p, end, sorig, v))
        && (!Terminator(pat, p) ==> s == u + p - word);
    assert Hit(nocase, pat, word, p, b, sorig, u);
    assert forall v :: s0 <= v < u ==> !Hit(nocase, pat, word, p, b, sorig, v);
    FirstHitIsEnough(nocase, pat, word, p, b, sorig, s0, u);
    out := if Terminator(pat, p) then Matched else GoOn;
  }

  /** From a place of an alternative, its end is the next terminator. */
  lemma {:induction false} AltEndSkips(p: string, i: nat, k: nat)
    requires i <= k <= |p| && forall x :: i <= x < k ==> p[x] != '|'
    ensures AltEnd(p, i) == AltEnd(p, k)
    ensures Terminator(p, k) ==> AltEnd(p, i) == k
    ensures !Terminator(p, k) ==> k < AltEnd(p, i)
    decreases k - i
  {
  }

  /** The loop after a mismatch: the beginning of the next alternative. */
  method NextPattern(pat: string, p0: nat) returns (more: bool, p: nat)
    requires p0 <= |pat|
    ensures more ==> p0 < p <= |pat| && p == AltEnd(pat, p0) + 1
    ensures !more ==> AltEnd(pat, p0) == |pat|
  {
    p := p0;
    while p < |pat| && pat[p] != '|'
      invariant p0 <= p <= |pat| && AltEnd(pat, p) == AltEnd(pat, p0)
    {
      p := p + 1;
    }
    if p == |pat| {
      return false, p;
    }
    return true, p + 1;
  }

  /** What an outcome at (p, s) says when r is the trial from the place before. */
  ghost predicate Settles(nocase: bool, pat: string, sorig: string, r: Trial, out: Outcome, p: nat, s: nat) {
    match out
    case Matched => r == Success
    case Overran => r == Past
    case GoOn => p <= |pat| && s <= |sorig| && r == Tried(nocase, pat, p, sorig, s)
    case Failed => p <= |pat| && r == Miss(AltEnd(pat, p))
  }

  /** The branches of the switch but for the backslash. */
  method Switch(nocase: bool, pat: string, p0: nat, sorig: string, s0: nat)
    returns (out: Outcome, p: nat, s: nat)
    requires p0 <= |pat| && s0 <= |sorig| && (p0 < |pat| ==> pat[p0] != '\\')
    ensures p0 <= p <= |pat| && s <= |sorig| && (out.GoOn? ==> p0 < p)
    ensures Settles(nocase, pat, sorig, Tried(nocase, pat, p0, sorig, s0), out, p, s)
  {
    p, s := p0, s0;
    if p < |pat| && pat[p] == '*' {
      var s';
      out, p, s' := Star(nocase, pat, p0, sorig, s0);
      s := if out.GoOn? then s' else s0;
    } else if p < |pat| && pat[p] == '?' {
      if s == |sorig| {
        return Overran, p, s;
      }
      out, p, s := GoOn, p + 1, s + 1;
    } else {
      if s == |sorig| && (p == |pat| || pat[p] == '|') {
        return Matched, p, s;
      }
      if s == |sorig| || p == |pat| || Fold(nocase, pat[p]) != Fold(nocase, sorig[s]) {
        return Failed, p, s;
      }
      out, p, s := GoOn, p + 1, s + 1;
    }
  }

  lemma FoldBar(nocase: bool, x: char)
    ensures Fold(nocase, x) == Fold(nocase, '|') ==> x == '|'
  {
  }

  /** The branch after a backslash. */
  method Literal(nocase: bool, pat: string, p0: nat, sorig: string, s0: nat)
    returns (out: Outcome, p: nat, s: nat)
    requires 0 < p0 <= |pat| && s0 <= |sorig| && pat[p0 - 1] == '\\'
    ensures p0 <= p <= |pat| && s <= |sorig| && (out.GoOn? ==> p0 < p)
    ensures Settles(nocase, pat, sorig, Tried(nocase, pat, p0 - 1, sorig, s0), out, p, s)
  {
    p, s := p0, s0;
    if s == |sorig| && p == |pat| {
      return Matched, p, s;
    }
    if s == |sorig| || p == |pat| || Fold(nocase, pat[p]) != Fold(nocase, sorig[s]) {
      return Failed, p, s;
    }
    out, p, s := GoOn, p + 1, s + 1;
  }

  /** matchBody, up to where it overruns the subject. */
  method MatchBody(sorig: string, pat: string, nocase: bool) returns (r: Verdict)
    ensures r == Answer(nocase, pat, 0, sorig)
    ensures '|' !in sorig ==> r == Judge(nocase, pat, 0, sorig)
  {
    if '|' !in sorig {
      AnswerJudge(nocase, pat, 0, sorig);
    }
    var p, s, escaped := 0, 0, false;
    while true
      invariant 0 <= p <= |pat| && 0 <= s <= |sorig|
      invariant escaped ==> 0 < p && pat[p - 1] == '\\'
      invariant Answer(nocase, pat, 0, sorig)
        == Outlook(nocase, pat, Tried(nocase, pat, if escaped then p - 1 else p, sorig, s), sorig)
      decreases |pat| - p, if escaped then 1 else 0
    {
      var out := GoOn;
      if escaped {
        escaped := false;
        out, p, s := Literal(nocase, pat, p, sorig, s);
      } else if p < |pat| && pat[p] == '\\' {
        escaped := true;
        p := p + 1;
      } else {
        out, p, s := Switch(nocase, pat, p, sorig, s);
      }
      match out
      case Matched => return Yes;
      case Overran => return Overrun;
      case GoOn =>
      case Failed =>
        var more;
        more, p := NextPattern(pat, p);
        if !more {
          return No;
        }
        s := 0;
    }
  }

  // ---------- The answer, alternative by alternative ----------

  ghost predicate MatchingAlternative(nocase: bool, p: string, a: nat, b: nat, s: string) {
    Alternative(p, a, b) && Fits(nocase, p, a, b, s, 0)
  }

  ghost predicate OverrunningAlternative(nocase: bool, p: string, a: nat, b: nat, s: string) {
    Alternative(p, a, b) && Overruns(nocase, p, a, b, s, 0)
  }

  /** The declarative meaning: some alternative matches the whole subject. */
  ghost predicate Meant(nocase: bool, p: string, s: string) {
    exists a, b :: MatchingAlternative(nocase, p, a, b, s)
  }

  lemma AlternativeAt(p: string, a: nat, b: nat)
    requires Alternative(p, a, b)
    ensures b == AltEnd(p, a)
  {
  }

  /** An overrunning alternative does not match. */
  lemma {:induction false} OverrunsNoMatch(nocase: bool, p: string, i: nat, j: nat, s: string, t: nat)
    requires i <= j <= |p| && t <= |s| && Overruns(nocase, p, i, j, s, t)
    ensures !Fits(nocase, p, i, j, s, t)
    decreases j - i
  {
    if t < |s| {
      if p[i] == '\\' {
        OverrunsNoMatch(nocase, p, i + 2, j, s, t + 1);
      } else {
        OverrunsNoMatch(nocase, p, i + 1, j, s, t + 1);
      }
    }
  }

  /** Alternatives that begin after a begin after the end of a's. */
  lemma NextAlternative(p: string, a: nat, a': nat, b': nat)
    requires a <= |p| && Alternative(p, a', b') && a < a'
    ensures AltEnd(p, a) < a'
  {
  }

  /** The first alternative from a on, of those that match or overrun. */
  ghost predicate Deciding(nocase: bool, p: string, a: nat, c: nat, d: nat, s: string) {
    && a <= c && Alternative(p, c, d)
    && forall c', d' :: a <= c' < c ==>
       !MatchingAlternative(nocase, p, c', d', s) && !OverrunningAlternative(nocase, p, c', d', s)
  }

  lemma {:induction false} JudgeDecides(nocase: bool, p: string, a: nat, c: nat, d: nat, s: string)
    requires a <= |p| && (a == 0 || p[a - 1] == '|') && Deciding(nocase, p, a, c, d, s)
    requires Fits(nocase, p, c, d, s, 0) || Overruns(nocase, p, c, d, s, 0)
    ensures Judge(nocase, p, a, s) == if Overruns(nocase, p, c, d, s, 0) then Overrun else Yes
    decreases |p| - a
  {
    AlternativeAt(p, c, d);
    var b := AltEnd(p, a);
    if a < c {
      assert Alternative(p, a, b);
      assert !MatchingAlternative(nocase, p, a, b, s) && !OverrunningAlternative(nocase, p, a, b, s);
      NextAlternative(p, a, c, d);
      JudgeDecides(nocase, p, b + 1, c, d, s);
    }
  }

  lemma {:induction false} JudgeNo(nocase: bool, p: string, a: nat, s: string)
    requires a <= |p| && (a == 0 || p[a - 1] == '|')
    requires forall c, d :: a <= c ==>
      !MatchingAlternative(nocase, p, c, d, s) && !OverrunningAlternative(nocase, p, c, d, s)
    ensures Judge(nocase, p, a, s) == No
    decreases |p| - a
  {
    var b := AltEnd(p, a);
    assert Alternative(p, a, b);
    assert !MatchingAlternative(nocase, p, a, b, s) && !OverrunningAlternative(nocase, p, a, b, s);
    if b < |p| {
      JudgeNo(nocase, p, b + 1, s);
    }
  }

  /** Some alternative overruns and no alternative before it matches. */
  ghost predicate OverrunsFirst(nocase: bool, p: string, s: string) {
    exists c, d :: OverrunningAlternative(nocase, p, c, d, s)
      && forall c', d' :: c' < c ==> !MatchingAlternative(nocase, p, c', d', s)
  }

  lemma FirstOf(nocase: bool, p: string, s: string, c: nat, d: nat) returns (c0: nat, d0: nat)
    requires Alternative(p, c, d) && (Fits(nocase, p, c, d, s, 0) || Overruns(nocase, p, c, d, s, 0))
    ensures c0 <= c && Deciding(nocase, p, 0, c0, d0, s)
      && (Fits(nocase, p, c0, d0, s, 0) || Overruns(nocase, p, c0, d0, s, 0))
    decreases c
  {
    if c', d' :|
      0 <= c' < c && (MatchingAlternative(nocase, p, c', d', s) || OverrunningAlternative(nocase, p, c', d', s))
    {
      c0, d0 := FirstOf(nocase, p, s, c', d');
    } else {
      c0, d0 := c, d;
    }
  }

  /** The greedy search agrees with the meaning of the pattern exactly when no alternative
      overruns before one matches. */
  lemma JudgeMeans(nocase: bool, p: string, s: string)
    ensures Judge(nocase, p, 0, s) == (if Meant(nocase, p, s) then Yes else No) <==> !OverrunsFirst(nocase, p, s)
    ensures Judge(nocase, p, 0, s) == Overrun <==> OverrunsFirst(nocase, p, s)
  {
    if c, d :|
      Alternative(p, c, d) && (MatchingAlternative(nocase, p, c, d, s) || OverrunningAlternative(nocase, p, c, d, s))
    {
      var c0, d0 := FirstOf(nocase, p, s, c, d);
      JudgeDecides(nocase, p, 0, c0, d0, s);
      if Overruns(nocase, p, c0, d0, s, 0) {
        assert OverrunningAlternative(nocase, p, c0, d0, s);
      } else {
        assert MatchingAlternative(nocase, p, c0, d0, s);
        NotOverrunFirst(nocase, p, s, c0, d0);
      }
    } else {
      JudgeNo(nocase, p, 0, s);
    }
  }

  lemma NotOverrunFirst(nocase: bool, p: string, s: string, c0: nat, d0: nat)
    requires Deciding(nocase, p, 0, c0, d0, s) && MatchingAlternative(nocase, p, c0, d0, s)
    ensures !OverrunsFirst(nocase, p, s)
  {
    if c, d :|
      && OverrunningAlternative(nocase, p, c, d, s)
      && forall c', d' :: c' < c ==> !MatchingAlternative(nocase, p, c', d', s)
    {
      AlternativeAt(p, c, d);
      AlternativeAt(p, c0, d0);
      if c == c0 {
        OverrunsNoMatch(nocase, p, c, d, s, 0);
      }
    }
  }

  /** A pattern of one question mark and an empty subject: the code reads past its end. */
  lemma OverrunExample()
    ensures OverrunsFirst(false, "?", "") && !Meant(false, "?", "")
  {
    assert OverrunningAlternative(false, "?", 0, 1, "");
  }
}
