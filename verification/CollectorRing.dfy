module CollectorRing {
  // The multi-collector build of haveged: a requester and n collector processes pass one token
  // round a ring of n + 1 semaphores and fill the requester's buffer. Every access to the shared
  // record is a step of its own, and the steps of the processes interleave in any order. No
  // system call fails and no collector reports an error.

  /** The word at an index of a collector's buffer after the given number of fills. */
  datatype Word = Word(collector: nat, fill: nat, index: nat)

  /** Where a collector stands in its loop. */
  datatype Pc =
    | Wait                            // at sem_wait on its own flag
    | SetLast                         // about to store its number in `last`
    | ReadCount                       // about to read `count` and fix r
    | CopyWord(i: nat, r: nat)        // about to write out[i], or to leave the loop when i == r
    | Subtract(r: nat)                // about to take r off `count` and test it
    | PostDone                        // about to post the completion flag
    | Advance(r: nat)                 // about to move `out` on by r
    | PostNext                        // about to post the next collector's flag
    | Refill                          // the token is gone; about to read and rewind its buffer

  /** Where the requester stands in havege_rng. */
  datatype RequesterPc = Idle | SetCount | SetOut | PostRequest | AwaitDone

  datatype Collector = Collector(pc: Pc, nptr: nat, fills: nat)

  datatype State = State(
    size: seq<nat>,               // havege_szFill of each collector
    sem: seq<nat>,                // flags[0..n]; flags[n] is the completion flag
    count: nat, out: nat, last: nat,
    requester: RequesterPc,
    asked: nat,                   // sz of the request being served
    collectors: seq<Collector>,
    written: seq<(nat, Word)>,    // what was stored where in the requester's buffer, in order
    delivered: seq<Word>)         // every word ever stored in a requester's buffer

  datatype Event = Request(sz: nat) | Requester | Collect(c: nat)

  // ---------- The code ----------

  ghost predicate WellFormed(s: State) {
    && |s.collectors| == |s.size| > 0 && |s.sem| == |s.size| + 1
    && s.last < |s.size|
    && forall c :: 0 <= c < |s.size| ==> s.size[c] > 0
  }

  /** havege_ipc and havege_ndcreate: all flags down and all buffers empty. */
  ghost predicate Initial(s: State) {
    && WellFormed(s) && s.requester.Idle? && s.delivered == []
    && (forall j :: 0 <= j < |s.sem| ==> s.sem[j] == 0)
    && (forall c :: 0 <= c < |s.size| ==> s.collectors[c] == Collector(Wait, s.size[c], 0))
  }

  predicate Enabled(s: State, e: Event)
    requires |s.collectors| == |s.size| && |s.sem| == |s.size| + 1
  {
    match e
    case Request(_) => s.requester.Idle?
    case Requester => !s.requester.Idle? && (s.requester.AwaitDone? ==> s.sem[|s.size|] > 0)
    case Collect(c) => c < |s.size| && (s.collectors[c].pc.Wait? ==> s.sem[c] > 0)
  }

  function Step(s: State, e: Event): (s': State)
    requires WellFormed(s) && Enabled(s, e)
    ensures WellFormed(s')
  {
    match e
    case Request(sz) => s.(requester := SetCount, asked := sz)
    case Requester => RequesterStep(s)
    case Collect(c) => CollectorStep(s, c)
  }

  function RequesterStep(s: State): (s': State)
    requires WellFormed(s) && Enabled(s, Requester)
    ensures WellFormed(s')
  {
    match s.requester
    case Idle => s
    case SetCount => s.(requester := SetOut, count := s.asked)
    case SetOut => s.(requester := PostRequest, out := 0, written := [])
    case PostRequest => s.(requester := AwaitDone, sem := Post(s.sem, s.last))
    case AwaitDone => s.(requester := Idle, sem := Take(s.sem, |s.size|))
  }

  function Post(sem: seq<nat>, j: nat): (r: seq<nat>)
    requires j < |sem|
    ensures |r| == |sem|
  {
    sem[j := sem[j] + 1]
  }

  function Take(sem: seq<nat>, j: nat): (r: seq<nat>)
    requires j < |sem| && sem[j] > 0
    ensures |r| == |sem|
  {
    sem[j := sem[j] - 1]
  }

  /** Subtraction of 32-bit unsigned numbers. */
  function Minus(a: nat, b: nat): nat {
    if b <= a then a - b else (a - b) % 0x1_0000_0000
  }

  /** havege_ndread: an exhausted buffer is filled again before the word is taken. */
  function Read(k: Collector, c: nat, size: nat): (Collector, Word) {
    if k.nptr >= size then (k.(nptr := 1, fills := k.fills + 1), Word(c, k.fills + 1, 0))
    else (k.(nptr := k.nptr + 1), Word(c, k.fills, k.nptr))
  }

  function CollectorStep(s: State, c: nat): (s': State)
    requires WellFormed(s) && Enabled(s, Collect(c))
    ensures WellFormed(s')
  {
    var k := s.collectors[c];
    match k.pc
    case Wait => Put(s.(sem := Take(s.sem, c)), c, k.(pc := SetLast))
    case SetLast => Put(s.(last := c), c, k.(pc := ReadCount))
    case ReadCount =>
      var left := Minus(s.size[c], k.nptr);
      Put(s, c, k.(pc := CopyWord(0, if s.count < left then s.count else left)))
    case CopyWord(i, r) =>
      if i < r then
        var (k', w) := Read(k, c, s.size[c]);
        Put(s.(written := s.written + [(s.out + i, w)], delivered := s.delivered + [w]),
            c, k'.(pc := CopyWord(i + 1, r)))
      else Put(s, c, k.(pc := Subtract(r)))
    case Subtract(r) =>
      var left := Minus(s.count, r);
      Put(s.(count := left), c, k.(pc := if left == 0 then PostDone else Advance(r)))
    case PostDone => Put(s.(sem := Post(s.sem, |s.size|)), c, k.(pc := Wait))
    case Advance(r) => Put(s.(out := s.out + r), c, k.(pc := PostNext))
    case PostNext => Put(s.(sem := Post(s.sem, (c + 1) % |s.size|)), c, k.(pc := Refill))
    case Refill => Put(s, c, Read(k, c, s.size[c]).0.(pc := Wait, nptr := 0))
  }

  function Put(s: State, c: nat, k: Collector): (s': State)
    requires WellFormed(s) && c < |s.size|
    ensures WellFormed(s')
  {
    s.(collectors := s.collectors[c := k])
  }

  // ---------- The token ----------

  /** The places the one token can be. */
  datatype Place = AtRequester | InFlag(j: nat) | AtCollector(c: nat)

  /** The collector is between its sem_wait and its sem_post. */
  predicate Holds(k: Collector) {
    !k.pc.Wait? && !k.pc.Refill?
  }

  ghost predicate TokenAt(s: State, p: Place)
    requires WellFormed(s)
  {
    && (!s.requester.AwaitDone? <==> p == AtRequester)
    && (forall j :: 0 <= j < |s.sem| ==> s.sem[j] == if p == InFlag(j) then 1 else 0)
    && (forall c :: 0 <= c < |s.size| ==> (Holds(s.collectors[c]) <==> p == AtCollector(c)))
    && match p
       case AtRequester => true
       case InFlag(j) => j < |s.sem|
       case AtCollector(c) => c < |s.size|
  }

  /** Stores went to cells 0, 1, 2, ... of the buffer. */
  ghost predicate InOrder(written: seq<(nat, Word)>) {
    forall k :: 0 <= k < |written| ==> written[k].0 == k
  }

  /** The words delivered last are the ones written for this request. */
  ghost predicate Recorded(s: State) {
    && |s.written| <= |s.delivered|
    && forall k :: 0 <= k < |s.written| ==> s.delivered[|s.delivered| - |s.written| + k] == s.written[k].1
  }

  /** What is known of the request, by the place of the token. */
  ghost predicate Serving(s: State, p: Place)
    requires WellFormed(s) && TokenAt(s, p)
  {
    match p
    case AtRequester =>
      && (s.requester.SetOut? || s.requester.PostRequest? ==> s.count == s.asked)
      && (s.requester.PostRequest? ==> s.out == 0 && s.written == [])
    case InFlag(j) =>
      InOrder(s.written) && Recorded(s) &&
      if j == |s.size| then s.count == 0 && |s.written| == s.asked
      else |s.written| == s.out && s.out + s.count == s.asked
    case AtCollector(c) =>
      var k := s.collectors[c];
      InOrder(s.written) && Recorded(s) &&
      match k.pc
      case Wait => false
      case SetLast => |s.written| == s.out && s.out + s.count == s.asked
      case ReadCount => |s.written| == s.out && s.out + s.count == s.asked
      case CopyWord(i, r) =>
        && i <= r <= s.count && s.out + s.count == s.asked && |s.written| == s.out + i
        && k.nptr + (r - i) <= s.size[c] && (r < s.count ==> k.nptr + (r - i) == s.size[c])
      case Subtract(r) =>
        && r <= s.count && s.out + s.count == s.asked && |s.written| == s.out + r
        && (r < s.count ==> k.nptr == s.size[c])
      case PostDone => s.count == 0 && |s.written| == s.asked
      case Advance(r) =>
        && s.count > 0 && s.out + r + s.count == s.asked && |s.written| == s.out + r
        && k.nptr == s.size[c]
      case PostNext =>
        && s.count > 0 && s.out + s.count == s.asked && |s.written| == s.out
        && k.nptr == s.size[c]
      case Refill => false
  }

  /** The word has been taken out of its collector's buffer. */
  ghost predicate Used(s: State, w: Word)
    requires WellFormed(s)
  {
    && w.collector < |s.size|
    && var k := s.collectors[w.collector];
       w.fill < k.fills || (w.fill == k.fills && w.index < k.nptr)
  }

  ghost predicate Distinct(ws: seq<Word>) {
    forall i, j :: 0 <= i < j < |ws| ==> ws[i] != ws[j]
  }

  ghost predicate Fresh(s: State)
    requires WellFormed(s)
  {
    && Distinct(s.delivered)
    && (forall i :: 0 <= i < |s.delivered| ==> Used(s, s.delivered[i]))
    && (forall c :: 0 <= c < |s.size| ==> s.collectors[c].nptr <= s.size[c])
    && (forall c :: 0 <= c < |s.size| && s.collectors[c].pc.Refill? ==> s.collectors[c].nptr == s.size[c])
  }

  ghost predicate InvAt(s: State, p: Place) {
    WellFormed(s) && TokenAt(s, p) && Serving(s, p) && Fresh(s)
  }

  ghost predicate Inv(s: State) {
    exists p :: InvAt(s, p)
  }

  /** Where the token is after a step. */
  ghost function NextPlace(s: State, e: Event, p: Place): Place
    requires WellFormed(s) && Enabled(s, e)
  {
    match e
    case Request(_) => p
    case Requester =>
      if s.requester.PostRequest? then InFlag(s.last)
      else if s.requester.AwaitDone? then AtRequester
      else p
    case Collect(c) =>
      match s.collectors[c].pc
      case Wait => AtCollector(c)
      case PostDone => InFlag(|s.size|)
      case PostNext => InFlag((c + 1) % |s.size|)
      case _ => p
  }

  lemma InitialInv(s: State)
    requires Initial(s)
    ensures Inv(s)
  {
    assert InvAt(s, AtRequester);
  }

  lemma {:induction false} CollectorToken(s: State, c: nat, p: Place)
    requires WellFormed(s) && TokenAt(s, p) && Enabled(s, Collect(c))
    ensures TokenAt(CollectorStep(s, c), NextPlace(s, Collect(c), p))
  {
  }

  /** No step makes or loses a token. */
  lemma StepToken(s: State, e: Event, p: Place)
    requires WellFormed(s) && TokenAt(s, p) && Enabled(s, e)
    ensures TokenAt(Step(s, e), NextPlace(s, e, p))
  {
    if e.Collect? {
      CollectorToken(s, e.c, p);
    }
  }

  lemma RequesterServing(s: State, e: Event, p: Place)
    requires InvAt(s, p) && Enabled(s, e) && !e.Collect?
    requires TokenAt(Step(s, e), NextPlace(s, e, p))
    ensures Serving(Step(s, e), NextPlace(s, e, p))
  {
  }

  lemma CopyServing(s: State, c: nat)
    requires InvAt(s, AtCollector(c)) && s.collectors[c].pc.CopyWord?
    requires TokenAt(CollectorStep(s, c), AtCollector(c))
    ensures Serving(CollectorStep(s, c), AtCollector(c))
  {
  }

  lemma {:induction false} HolderServing(s: State, c: nat)
    requires InvAt(s, AtCollector(c)) && Enabled(s, Collect(c)) && !s.collectors[c].pc.CopyWord?
    requires TokenAt(CollectorStep(s, c), NextPlace(s, Collect(c), AtCollector(c)))
    ensures Serving(CollectorStep(s, c), NextPlace(s, Collect(c), AtCollector(c)))
  {
    var s' := CollectorStep(s, c);
    assert InOrder(s'.written) && Recorded(s');
  }

  lemma {:induction false} WaiterServing(s: State, c: nat, p: Place)
    requires InvAt(s, p) && Enabled(s, Collect(c)) && !Holds(s.collectors[c])
    requires TokenAt(CollectorStep(s, c), NextPlace(s, Collect(c), p))
    ensures Serving(CollectorStep(s, c), NextPlace(s, Collect(c), p))
  {
  }

  lemma StepServing(s: State, e: Event, p: Place)
    requires InvAt(s, p) && Enabled(s, e)
    requires TokenAt(Step(s, e), NextPlace(s, e, p))
    ensures Serving(Step(s, e), NextPlace(s, e, p))
  {
    if e.Collect? {
      if !Holds(s.collectors[e.c]) {
        WaiterServing(s, e.c, p);
      } else if s.collectors[e.c].pc.CopyWord? {
        CopyServing(s, e.c);
      } else {
        HolderServing(s, e.c);
      }
    } else {
      RequesterServing(s, e, p);
    }
  }

  lemma CopyFresh(s: State, c: nat)
    requires InvAt(s, AtCollector(c)) && s.collectors[c].pc.CopyWord?
    ensures Fresh(CollectorStep(s, c))
  {
  }

  lemma RefillFresh(s: State, c: nat, p: Place)
    requires InvAt(s, p) && c < |s.size| && s.collectors[c].pc.Refill?
    ensures Fresh(CollectorStep(s, c))
  {
  }

  lemma StepFresh(s: State, e: Event, p: Place)
    requires InvAt(s, p) && Enabled(s, e)
    ensures Fresh(Step(s, e))
  {
    if e.Collect? && s.collectors[e.c].pc.CopyWord? {
      assert Holds(s.collectors[e.c]);
      CopyFresh(s, e.c);
    } else if e.Collect? && s.collectors[e.c].pc.Refill? {
      RefillFresh(s, e.c, p);
    } else {
      var s' := Step(s, e);
      assert s'.delivered == s.delivered;
      forall c | 0 <= c < |s.size|
        ensures s'.collectors[c].nptr == s.collectors[c].nptr && s'.collectors[c].fills == s.collectors[c].fills
        ensures s'.collectors[c].pc.Refill? ==> s'.collectors[c].nptr == s'.size[c]
      {
      }
      assert forall u :: Used(s, u) ==> Used(s', u);
    }
  }

  /** Every step of every process keeps the invariant. */
  lemma StepInv(s: State, e: Event)
    requires Inv(s) && Enabled(s, e)
    ensures Inv(Step(s, e))
  {
    var p :| InvAt(s, p);
    StepToken(s, e, p);
    StepServing(s, e, p);
    StepFresh(s, e, p);
    assert InvAt(Step(s, e), NextPlace(s, e, p));
  }

  // ---------- Safety over whole runs ----------

  /** events is a run of the system from s to its last state. */
  ghost predicate IsRun(states: seq<State>, events: seq<Event>) {
    && |states| == |events| + 1
    && WellFormed(states[0])
    && forall i :: 0 <= i < |events| ==>
         WellFormed(states[i]) && Enabled(states[i], events[i]) && states[i + 1] == Step(states[i], events[i])
  }

  lemma {:induction false} RunInv(states: seq<State>, events: seq<Event>, i: nat)
    requires IsRun(states, events) && Initial(states[0]) && i < |states|
    ensures Inv(states[i])
    decreases i
  {
    if i == 0 {
      InitialInv(states[0]);
    } else {
      RunInv(states, events, i - 1);
      StepInv(states[i - 1], events[i - 1]);
    }
  }

  /** The collectors among the first n that hold the token. */
  function Holders(ks: seq<Collector>, n: nat): nat
    requires n <= |ks|
  {
    if n == 0 then 0 else Holders(ks, n - 1) + if Holds(ks[n - 1]) then 1 else 0
  }

  function Sum(sem: seq<nat>, n: nat): nat
    requires n <= |sem|
  {
    if n == 0 then 0 else Sum(sem, n - 1) + sem[n - 1]
  }

  /** All tokens: raised flags, collectors at work, and the requester unless it waits. */
  function Tokens(s: State): nat {
    Sum(s.sem, |s.sem|) + Holders(s.collectors, |s.collectors|) + if s.requester.AwaitDone? then 0 else 1
  }

  lemma {:induction false} CountTokens(s: State, p: Place, n: nat, m: nat)
    requires WellFormed(s) && TokenAt(s, p) && n <= |s.sem| && m <= |s.collectors|
    ensures Sum(s.sem, n) == if p.InFlag? && p.j < n then 1 else 0
    ensures Holders(s.collectors, m) == if p.AtCollector? && p.c < m then 1 else 0
    decreases n + m
  {
    if n > 0 {
      CountTokens(s, p, n - 1, m);
    } else if m > 0 {
      CountTokens(s, p, n, m - 1);
    }
  }

  /** Mutual exclusion in every run: there is exactly one token, so at most one process is
      between taking and passing it and only that one touches count, out and last. */
  lemma OneToken(states: seq<State>, events: seq<Event>, i: nat)
    requires IsRun(states, events) && Initial(states[0]) && i < |states|
    ensures Tokens(states[i]) == 1
    ensures forall c, d :: 0 <= c < d < |states[i].collectors| ==>
              !(Holds(states[i].collectors[c]) && Holds(states[i].collectors[d]))
    ensures forall c :: 0 <= c < |states[i].collectors| && Holds(states[i].collectors[c]) ==>
              states[i].requester.AwaitDone?
  {
    RunInv(states, events, i);
    var s := states[i];
    var p :| InvAt(s, p);
    CountTokens(s, p, |s.sem|, |s.collectors|);
  }

  /** When a request is answered, cell 0, 1, ..., sz - 1 was stored once each and in that
      order, and no other cell; the stored words are the last ones delivered, and no word was
      ever delivered twice. */
  lemma RequestAnswered(states: seq<State>, events: seq<Event>, i: nat)
    requires IsRun(states, events) && Initial(states[0]) && i < |events|
    requires states[i].requester.AwaitDone? && events[i] == Requester
    ensures var s := states[i];
            |s.written| == s.asked && InOrder(s.written) && Recorded(s) && Distinct(s.delivered)
  {
    RunInv(states, events, i);
    var p :| InvAt(states[i], p);
    assert p == InFlag(|states[i].size|);
  }

  /** No buffer is filled while its collector holds the token. */
  lemma NoRefillWhileHolding(states: seq<State>, events: seq<Event>, i: nat, c: nat)
    requires IsRun(states, events) && Initial(states[0]) && i < |events|
    requires c < |states[i].collectors| && Holds(states[i].collectors[c])
    ensures c < |states[i + 1].collectors|
    ensures states[i + 1].collectors[c].fills == states[i].collectors[c].fills
  {
    RunInv(states, events, i);
    var p :| InvAt(states[i], p);
  }

  // ---------- Every request completes ----------

  /** The buffer is empty and its collector is not on the way to fill it. */
  predicate Dry(s: State, c: nat)
    requires c < |s.collectors| && c < |s.size|
  {
    var k := s.collectors[c];
    k.nptr == s.size[c] && !k.pc.Advance? && !k.pc.PostNext? && !k.pc.Refill?
  }

  function DryCount(s: State, n: nat): nat
    requires n <= |s.collectors| && n <= |s.size|
  {
    if n == 0 then 0 else DryCount(s, n - 1) + if Dry(s, n - 1) then 1 else 0
  }

  function RefillCount(s: State, n: nat): nat
    requires n <= |s.collectors|
  {
    if n == 0 then 0 else RefillCount(s, n - 1) + if s.collectors[n - 1].pc.Refill? then 1 else 0
  }

  /** Words still to be stored. */
  function Remaining(s: State): nat {
    if s.requester.AwaitDone? && |s.written| <= s.asked then s.asked - |s.written| else 0
  }

  function RequesterPhase(s: State): nat {
    match s.requester
    case Idle => 4
    case SetCount => 3
    case SetOut => 2
    case PostRequest => 1
    case AwaitDone => 0
  }

  /** How far the token is from being passed on. */
  function Phase(s: State, p: Place): nat {
    match p
    case AtRequester => 0
    case InFlag(j) => if j == |s.size| then 0 else 6
    case AtCollector(c) =>
      if c >= |s.collectors| then 0 else
      match s.collectors[c].pc
      case Wait => 0
      case SetLast => 5
      case ReadCount => 4
      case CopyWord(_, _) => 3
      case Subtract(_) => 2
      case PostDone => 1
      case Advance(_) => 8
      case PostNext => 7
      case Refill => 0
  }

  /** Changing one collector changes the counts by that collector alone. */
  lemma {:induction false} CountsChange(s: State, s': State, c: nat, n: nat)
    requires WellFormed(s) && WellFormed(s') && s'.size == s.size && c < |s.size| && n <= |s.size|
    requires forall d :: 0 <= d < |s.size| && d != c ==> s'.collectors[d] == s.collectors[d]
    ensures DryCount(s', n) - DryCount(s, n)
         == if c < n then (if Dry(s', c) then 1 else 0) - (if Dry(s, c) then 1 else 0) else 0
    ensures RefillCount(s', n) - RefillCount(s, n)
         == if c < n then (if s'.collectors[c].pc.Refill? then 1 else 0) - (if s.collectors[c].pc.Refill? then 1 else 0)
            else 0
    decreases n
  {
    if n > 0 {
      CountsChange(s, s', c, n - 1);
    }
  }

  lemma {:induction false} CountsKept(s: State, s': State, n: nat)
    requires WellFormed(s) && WellFormed(s') && s'.size == s.size && n <= |s.size|
    requires s'.collectors == s.collectors
    ensures DryCount(s', n) == DryCount(s, n) && RefillCount(s', n) == RefillCount(s, n)
    decreases n
  {
    if n > 0 {
      CountsKept(s, s', n - 1);
    }
  }

  /** Lexicographic order of the five components of the measure. */
  ghost predicate Smaller(s': State, p': Place, s: State, p: Place)
    requires WellFormed(s) && WellFormed(s')
  {
    var (a', a) := (RequesterPhase(s'), RequesterPhase(s));
    var (b', b) := (Remaining(s'), Remaining(s));
    var (c', c) := (DryCount(s', |s'.size|), DryCount(s, |s.size|));
    var (d', d) := (Phase(s', p'), Phase(s, p));
    var (e', e) := (RefillCount(s', |s'.size|), RefillCount(s, |s.size|));
    a' < a || (a' == a && (b' < b || (b' == b && (c' < c || (c' == c && (d' < d || (d' == d && e' < e)))))))
  }

  lemma {:induction false} HolderProgress(s: State, c: nat)
    requires InvAt(s, AtCollector(c)) && Enabled(s, Collect(c))
    ensures Smaller(CollectorStep(s, c), NextPlace(s, Collect(c), AtCollector(c)), s, AtCollector(c))
  {
    var k, s' := s.collectors[c], CollectorStep(s, c);
    CountsChange(s, s', c, |s.size|);
    assert k.pc.Subtract? && s'.collectors[c].pc.Advance? ==> Dry(s, c) && !Dry(s', c);
    assert s'.collectors[c].pc.Advance? || s'.written != s.written || Dry(s', c) == Dry(s, c);
  }

  lemma WaiterProgress(s: State, c: nat, p: Place)
    requires InvAt(s, p) && Enabled(s, Collect(c)) && !Holds(s.collectors[c])
    ensures Smaller(CollectorStep(s, c), NextPlace(s, Collect(c), p), s, p)
  {
    CountsChange(s, CollectorStep(s, c), c, |s.size|);
    if s.collectors[c].pc.Wait? {
      assert p == InFlag(c);
    }
  }

  /** While a request is served every step of every process makes progress. */
  lemma StepProgress(s: State, e: Event, p: Place)
    requires InvAt(s, p) && Enabled(s, e) && !s.requester.Idle?
    ensures Step(s, e).requester.Idle? || Smaller(Step(s, e), NextPlace(s, e, p), s, p)
  {
    if e.Collect? {
      if Holds(s.collectors[e.c]) {
        HolderProgress(s, e.c);
      } else {
        WaiterProgress(s, e.c, p);
      }
    } else {
      CountsKept(s, Step(s, e), |s.size|);
    }
  }

  /** Some process can always move until the request is answered. */
  lemma NoDeadlock(s: State)
    requires Inv(s) && !s.requester.Idle?
    ensures exists e :: Enabled(s, e)
  {
    var p :| InvAt(s, p);
    match p
    case AtRequester =>
      assert Enabled(s, Requester);
    case InFlag(j) =>
      assert j == |s.size| ==> Enabled(s, Requester);
      assert j < |s.size| ==> Enabled(s, Collect(j));
    case AtCollector(c) =>
      assert Enabled(s, Collect(c));
  }

  ghost predicate IsInfiniteRun(run: nat -> State, choice: nat -> Event) {
    forall k: nat :: WellFormed(run(k)) && Enabled(run(k), choice(k)) && run(k + 1) == Step(run(k), choice(k))
  }

  lemma {:induction false} CompletesFrom(run: nat -> State, choice: nat -> Event, i: nat, p: Place)
    requires IsInfiniteRun(run, choice) && InvAt(run(i), p)
    ensures exists j :: j >= i && run(j).requester.Idle?
    decreases RequesterPhase(run(i)), Remaining(run(i)), DryCount(run(i), |run(i).size|), Phase(run(i), p),
              RefillCount(run(i), |run(i).size|)
  {
    if !run(i).requester.Idle? {
      var s, e := run(i), choice(i);
      StepToken(s, e, p);
      StepServing(s, e, p);
      StepFresh(s, e, p);
      StepProgress(s, e, p);
      if !run(i + 1).requester.Idle? {
        CompletesFrom(run, choice, i + 1, NextPlace(s, e, p));
      }
    }
  }

  lemma {:induction false} InfiniteRunInv(run: nat -> State, choice: nat -> Event, i: nat)
    requires IsInfiniteRun(run, choice) && Initial(run(0))
    ensures Inv(run(i))
  {
    if i == 0 {
      InitialInv(run(0));
    } else {
      InfiniteRunInv(run, choice, i - 1);
      StepInv(run(i - 1), choice(i - 1));
    }
  }

  /** However the processes are scheduled, fairly or not, a request is answered. */
  lemma RequestCompletes(run: nat -> State, choice: nat -> Event, i: nat)
    requires IsInfiniteRun(run, choice) && Initial(run(0))
    ensures exists j :: j >= i && run(j).requester.Idle?
  {
    InfiniteRunInv(run, choice, i);
    var p :| InvAt(run(i), p);
    CompletesFrom(run, choice, i, p);
  }
}
