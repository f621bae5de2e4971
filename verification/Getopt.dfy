module Getopt {
  // GNU getopt as rinetd links it, in its permuting mode: a scan that moves the non-options of
  // argv behind the options while it goes, by rotating two neighbouring ranges with three
  // reversals. It is proved against a scan that leaves argv alone.

  import opened Common

  /** struct option: flag names the variable the option stores its value into. */
  datatype LongOption = LongOption(name: string, hasArg: int, flag: Option<nat>, val: int)

  /** What stays the same from call to call. */
  datatype Config = Config(optstring: string, longopts: Option<seq<LongOption>>, longOnly: bool)

  /** optstring leaves the ordering that permutes argv. */
  predicate Permutes(cfg: Config) {
    cfg.optstring == "" || (cfg.optstring[0] != '-' && cfg.optstring[0] != '+')
  }

  /** The message printed for a bad option. */
  datatype Fault = Ambiguous | Unwanted | MissingArgument | Unrecognized | Illegal

  /** What one call hands to its caller: the returned code, optarg, and, where it sets them,
      *longind, the flag variable, the message and optopt. */
  datatype Event = Event(code: int, arg: Option<string>, index: Option<nat>, stored: Option<nat>,
                         fault: Option<Fault>, optopt: Option<char>)

  /** A stretch of a scan: the events, the elements they consumed, and the non-options passed. */
  datatype Scanned = Scanned(events: seq<Event>, taken: seq<string>, rest: seq<string>)

  const BadOption: int := 0

  function Bad(fault: Fault): Event {
    Event(BadOption, None, None, None, Some(fault), None)
  }

  predicate NonOption(s: string) {
    s == "" || s[0] != '-' || |s| == 1
  }

  // ---------- Long options ----------

  datatype Lookup = Found(at: nat) | Several | Nothing

  predicate Exact(opts: seq<LongOption>, word: string, i: int) {
    0 <= i < |opts| && opts[i].name == word
  }

  predicate Abbreviates(opts: seq<LongOption>, word: string, i: int) {
    0 <= i < |opts| && word <= opts[i].name
  }

  /** The first exact match if there is one; otherwise the only option the word abbreviates. */
  ghost predicate IsLookup(opts: seq<LongOption>, word: string, r: Lookup) {
    match r
    case Found(i) =>
      && Abbreviates(opts, word, i)
      && if Exact(opts, word, i) then forall j :: 0 <= j < i ==> !Exact(opts, word, j)
         else forall j :: Abbreviates(opts, word, j) ==> j == i
    case Several =>
      && (forall j :: !Exact(opts, word, j))
      && exists i, j :: i < j && Abbreviates(opts, word, i) && Abbreviates(opts, word, j)
    case Nothing => forall j :: !Abbreviates(opts, word, j)
  }

  lemma LookupUnique(opts: seq<LongOption>, word: string, r: Lookup, r': Lookup)
    requires IsLookup(opts, word, r) && IsLookup(opts, word, r')
    ensures r == r'
  {
  }

  /** The search loop over the long options. */
  method FindLong(opts: seq<LongOption>, word: string) returns (r: Lookup)
    ensures IsLookup(opts, word, r)
  {
    var found: Option<nat>, exact, ambig := None, false, false;
    var p := 0;
    while p < |opts| && !exact
      invariant 0 <= p <= |opts|
      invariant !exact ==> forall j :: 0 <= j < p ==> !Exact(opts, word, j)
      invariant !exact && found.None? ==> forall j :: 0 <= j < p ==> !Abbreviates(opts, word, j)
      invariant !exact && found.Some? ==> found.value < p && Abbreviates(opts, word, found.value)
      invariant !exact && found.Some? && !ambig ==> forall j :: 0 <= j < p && Abbreviates(opts, word, j) ==>
        j == found.value
      invariant !exact && ambig ==> found.Some? && exists j :: found.value < j < p && Abbreviates(opts, word, j)
      invariant exact ==> found.Some? && Exact(opts, word, found.value) && Abbreviates(opts, word, found.value)
                          && forall j :: 0 <= j < found.value ==> !Exact(opts, word, j)
      decreases |opts| - p, !exact
    {
      if word <= opts[p].name {
        assert Abbreviates(opts, word, p);
        if |word| == |opts[p].name| {
          assert Exact(opts, word, p);
          found, exact := Some(p), true;
        } else if found.None? {
          found := Some(p);
        } else {
          ambig := true;
        }
      }
      if !exact {
        p := p + 1;
      }
    }
    if ambig && !exact {
      r := Several;
    } else if found.Some? {
      r := Found(found.value);
    } else {
      r := Nothing;
    }
  }

  lemma LookupExists(opts: seq<LongOption>, word: string)
    ensures exists r :: IsLookup(opts, word, r)
  {
    if i :| Exact(opts, word, i) {
      var k := FirstExact(opts, word, i);
      assert IsLookup(opts, word, Found(k));
    } else if i :| Abbreviates(opts, word, i) {
      if j :| Abbreviates(opts, word, j) && j != i {
        assert IsLookup(opts, word, Several) by {
          var (lo, hi) := if i < j then (i, j) else (j, i);
          assert Abbreviates(opts, word, lo) && Abbreviates(opts, word, hi);
        }
      } else {
        assert IsLookup(opts, word, Found(i));
      }
    } else {
      assert IsLookup(opts, word, Nothing);
    }
  }

  ghost function FirstExact(opts: seq<LongOption>, word: string, i: nat): (k: nat)
    requires Exact(opts, word, i)
    ensures Exact(opts, word, k) && Abbreviates(opts, word, k)
    ensures forall j :: 0 <= j < k ==> !Exact(opts, word, j)
  {
    if exists j: nat :: j < i && Exact(opts, word, j) then
      var j: nat :| j < i && Exact(opts, word, j); FirstExact(opts, word, j)
    else i
  }

  ghost function LookupOf(opts: seq<LongOption>, word: string): (r: Lookup)
    ensures IsLookup(opts, word, r)
  {
    LookupExists(opts, word);
    var r :| IsLookup(opts, word, r);
    r
  }

  // ---------- One event ----------

  /** An event, what is left of the element after it, and how many elements it finished. */
  datatype Move = Move(event: Event, left: string, past: int)

  /** my_index, and the end of a long option's name. */
  function FirstIndex(s: string, c: char): (k: nat)
    ensures k <= |s| && (k < |s| ==> s[k] == c)
  {
    IndexFrom(s, c, 0)
  }

  function IndexFrom(s: string, c: char, i: nat): (k: nat)
    requires i <= |s|
    ensures i <= k <= |s| && (k < |s| ==> s[k] == c)
    decreases |s| - i
  {
    if i == |s| || s[i] == c then i else IndexFrom(s, c, i + 1)
  }

  method Index(s: string, c: char) returns (k: nat)
    ensures k == FirstIndex(s, c) && forall j :: 0 <= j < k ==> s[j] != c
  {
    k := 0;
    while k < |s| && s[k] != c
      invariant k <= |s| && IndexFrom(s, c, k) == FirstIndex(s, c)
      invariant forall j :: 0 <= j < k ==> s[j] != c
    {
      k := k + 1;
    }
  }

  datatype Wants = Invalid | NoArg | Required | Optional

  /** How optstring declares the option character c. */
  function Declared(optstring: string, c: char): Wants {
    var k := FirstIndex(optstring, c);
    if k == |optstring| || c == ':' then Invalid
    else if k + 1 == |optstring| || optstring[k + 1] != ':' then NoArg
    else if k + 2 == |optstring| || optstring[k + 2] != ':' then Required
    else Optional
  }

  /** The code for a missing argument. */
  function MissingCode(optstring: string): int {
    if optstring != "" && optstring[0] == ':' then ':' as int else BadOption
  }

  function ShortStep(cfg: Config, w: string, next: Option<string>): (m: Move)
    requires w != ""
  {
    var c, left := w[0], w[1..];
    var past := if left == "" then 1 else 0;
    match Declared(cfg.optstring, c)
    case Invalid => Move(Bad(Illegal).(optopt := Some(c)), left, past)
    case NoArg => Move(Event(c as int, None, None, None, None, None), left, past)
    case Optional => Move(Event(c as int, if left == "" then None else Some(left), None, None, None, None), "", 1)
    case Required =>
      if left != "" then Move(Event(c as int, Some(left), None, None, None, None), "", 1)
      else if next.Some? then Move(Event(c as int, next, None, None, None, None), "", 2)
      else Move(Event(MissingCode(cfg.optstring), None, None, None, Some(MissingArgument), Some(c)), "", 1)
  }

  function LongStep(cfg: Config, o: LongOption, i: nat, w: string, next: Option<string>): (m: Move) {
    var s := FirstIndex(w, '=');
    var ok := Event(if o.flag.Some? then 0 else o.val, None, Some(i), o.flag, None, None);
    if s < |w| then
      if o.hasArg != 0 then Move(ok.(arg := Some(w[s + 1..])), "", 1) else Move(Bad(Unwanted), "", 1)
    else if o.hasArg == 1 then
      if next.Some? then Move(ok.(arg := next), "", 2)
      else Move(Event(MissingCode(cfg.optstring), None, None, None, Some(MissingArgument), None), "", 1)
    else Move(ok, "", 1)
  }

  predicate TriesLong(cfg: Config, elem: string)
    requires !NonOption(elem)
  {
    cfg.longopts.Some? && (elem[1] == '-' || cfg.longOnly)
  }

  /** The next event of the element elem, whose unread part is w, when next follows it. */
  ghost function Decoded(cfg: Config, elem: string, w: string, next: Option<string>): (m: Move)
    requires !NonOption(elem) && w != ""
    ensures m.past == 0 <==> m.left != ""
    ensures |m.left| < |w| && 0 <= m.past <= (if next.Some? then 2 else 1)
  {
    if !TriesLong(cfg, elem) then ShortStep(cfg, w, next) else
    match LookupOf(cfg.longopts.value, w[..FirstIndex(w, '=')])
    case Several => Move(Bad(Ambiguous), "", 1)
    case Found(i) => LongStep(cfg, cfg.longopts.value[i], i, w, next)
    case Nothing =>
      if cfg.longOnly && elem[1] != '-' && w[0] in cfg.optstring then ShortStep(cfg, w, next)
      else Move(Bad(Unrecognized), "", 1)
  }

  ghost predicate OpenStep(w: string, m: Move, u: nat) {
    true
  }

  /** m is what Decoded gives. The equation stands under a quantifier that only StepMeans opens,
      so that proofs about the scan do not look into an event. */
  ghost predicate IsStep(cfg: Config, elem: string, w: string, next: Option<string>, m: Move)
    requires !NonOption(elem) && w != ""
  {
    && (m.past == 0 <==> m.left != "") && |m.left| < |w| && 0 <= m.past <= (if next.Some? then 2 else 1)
    && forall u: nat {:trigger OpenStep(w, m, u)} :: OpenStep(w, m, u) ==> m == Decoded(cfg, elem, w, next)
  }

  lemma StepExists(cfg: Config, elem: string, w: string, next: Option<string>)
    requires !NonOption(elem) && w != ""
    ensures exists m :: IsStep(cfg, elem, w, next, m)
  {
    assert IsStep(cfg, elem, w, next, Decoded(cfg, elem, w, next));
  }

  ghost function Step(cfg: Config, elem: string, w: string, next: Option<string>): (m: Move)
    requires !NonOption(elem) && w != ""
    ensures m.past == 0 <==> m.left != ""
    ensures |m.left| < |w| && 0 <= m.past <= (if next.Some? then 2 else 1)
  {
    StepExists(cfg, elem, w, next);
    var m :| IsStep(cfg, elem, w, next, m);
    m
  }

  lemma StepMeans(cfg: Config, elem: string, w: string, next: Option<string>)
    requires !NonOption(elem) && w != ""
    ensures Step(cfg, elem, w, next) == Decoded(cfg, elem, w, next)
  {
    assert OpenStep(w, Step(cfg, elem, w, next), 0);
  }

  // ---------- The scan that leaves argv alone ----------

  /** The part of an option element that its first event reads. */
  function Start(cfg: Config, elem: string): (w: string)
    requires !NonOption(elem) && elem != "--"
    ensures w != ""
  {
    if cfg.longopts.Some? && elem[1] == '-' then elem[2..] else elem[1..]
  }

  function NextOf(a: seq<string>, i: nat): Option<string> {
    if i + 1 < |a| then Some(a[i + 1]) else None
  }

  function Then(x: Scanned, y: Scanned): Scanned {
    Scanned(x.events + y.events, x.taken + y.taken, x.rest + y.rest)
  }

  predicate Position(a: seq<string>, i: nat, w: string) {
    i <= |a| && (w != "" ==> i < |a| && !NonOption(a[i]))
  }

  /** From element i of a, of which w is still unread ("" for an element not begun). */
  ghost function Scan(cfg: Config, a: seq<string>, i: nat, w: string): (r: Scanned)
    requires Position(a, i, w)
    decreases |a| - i, if w == "" then 1 else 0, |w|
  {
    if w != "" then
      var m := Step(cfg, a[i], w, NextOf(a, i));
      Then(Scanned([m.event], a[i..i + m.past], []), Scan(cfg, a, i + m.past, m.left))
    else if i == |a| then Scanned([], [], [])
    else if NonOption(a[i]) then Then(Scanned([], [], [a[i]]), Scan(cfg, a, i + 1, ""))
    else if a[i] == "--" then Scanned([], ["--"], a[i + 1..])
    else Scan(cfg, a, i, Start(cfg, a[i]))
  }

  /** a is taken and rest woven together, each in its own order. */
  ghost predicate Woven(a: seq<string>, taken: seq<string>, rest: seq<string>) {
    if a == [] then taken == [] && rest == []
    else || (taken != [] && taken[0] == a[0] && Woven(a[1..], taken[1..], rest))
         || (rest != [] && rest[0] == a[0] && Woven(a[1..], taken, rest[1..]))
  }

  // ---------- Reversal and rotation ----------

  ghost predicate OpenParts(s: seq<string>, f: nat, o: nat, u: nat) {
    true
  }

  /** t is s with the elements [lo, hi) in reverse order. */
  ghost predicate Mirrored(s: seq<string>, t: seq<string>, lo: nat, hi: nat)
    requires lo <= hi <= |s| == |t|
  {
    forall k :: 0 <= k < |t| ==> t[k] == s[if lo <= k < hi then lo + hi - 1 - k else k]
  }

  /** The same, under a quantifier that only MirrorsMeans opens, so that callers handle it as a
      name. */
  ghost predicate Mirrors(s: seq<string>, t: seq<string>, lo: nat, hi: nat) {
    && lo <= hi <= |s| == |t|
    && forall u: nat {:trigger OpenParts(t, lo, hi, u)} :: OpenParts(t, lo, hi, u) ==> Mirrored(s, t, lo, hi)
  }

  lemma MirrorsMeans(s: seq<string>, t: seq<string>, lo: nat, hi: nat)
    requires Mirrors(s, t, lo, hi)
    ensures Mirrored(s, t, lo, hi)
  {
    assert OpenParts(t, lo, hi, 0);
  }

  /** One of the three swapping loops of exchange, on the elements [lo, hi). */
  method Reverse(argv: array<string>, lo: nat, hi: nat)
    requires lo <= hi <= argv.Length
    modifies argv
    ensures Mirrors(old(argv[..]), argv[..], lo, hi)
  {
    ghost var s := argv[..];
    var first: int, last: int := lo, hi - 1;
    while first < last
      invariant lo <= first && last < hi && first + last == lo + hi - 1
      invariant first <= last + 2
      invariant forall k :: 0 <= k < argv.Length ==>
        argv[k] == s[if lo <= k < first || last < k < hi then lo + hi - 1 - k else k]
    {
      argv[first], argv[last] := argv[last], argv[first];
      first, last := first + 1, last - 1;
    }
    assert Mirrored(s, argv[..], lo, hi);
  }

  /** s with the ranges [f, l) and [l, o) exchanged. */
  function Exchanged(s: seq<string>, f: nat, l: nat, o: nat): (r: seq<string>)
    requires f <= l <= o <= |s|
    ensures |r| == |s|
  {
    s[..f] + s[l..o] + s[f..l] + s[o..]
  }

  /** Both ranges reversed as one, and then each reversed again, have changed places. */
  lemma ThreeReversals(s: seq<string>, t: seq<string>, u: seq<string>, v: seq<string>, f: nat, l: nat, o: nat)
    requires f <= l <= o && Mirrors(s, t, f, o) && Mirrors(t, u, f, f + o - l) && Mirrors(u, v, f + o - l, o)
    ensures v == Exchanged(s, f, l, o)
  {
    forall k | 0 <= k < |v|
      ensures v[k] == s[ExchangedFrom(f, l, o, k)]
    {
      ThreeAt(s, t, u, v, f, l, o, k);
    }
    assert forall k :: 0 <= k < |v| ==> Exchanged(s, f, l, o)[k] == s[ExchangedFrom(f, l, o, k)];
  }

  /** Where the element at k stood before the exchange. */
  function ExchangedFrom(f: nat, l: nat, o: nat, k: nat): int {
    if f <= k < f + o - l then k + l - f else if f + o - l <= k < o then k - (o - l) else k
  }

  lemma ThreeAt(s: seq<string>, t: seq<string>, u: seq<string>, v: seq<string>, f: nat, l: nat, o: nat, k: nat)
    requires f <= l <= o && Mirrors(s, t, f, o) && Mirrors(t, u, f, f + o - l) && Mirrors(u, v, f + o - l, o) && k < |v|
    ensures v[k] == s[ExchangedFrom(f, l, o, k)]
  {
    var k1 := if f + o - l <= k < o then f + o - l + o - 1 - k else k;
    var k2 := if f <= k1 < f + o - l then f + f + o - l - 1 - k1 else k1;
    MirrorsMeans(u, v, f + o - l, o);
    assert v[k] == u[k1];
    MirrorsMeans(t, u, f, f + o - l);
    assert u[k1] == t[k2];
    MirrorsMeans(s, t, f, o);
  }

  /** Between two calls, after the elements before o of the original argv a gave taken and rest:
      argv holds some of taken, all of rest, the rest of taken, and what a still has. */
  ghost predicate Parts(s: seq<string>, a: seq<string>, taken: seq<string>, rest: seq<string>, f: nat, l: nat, o: nat)
    requires 1 <= f <= l <= o <= |s| == |a|
  {
    s[0] == a[0] && s[o..] == a[o..] && s[1..f] + s[l..o] == taken && s[f..l] == rest
  }

  /** The same, under a quantifier that only LayoutMeans opens, so that callers handle it as a
      name. */
  ghost predicate Layout(s: seq<string>, a: seq<string>, taken: seq<string>, rest: seq<string>, f: nat, l: nat,
                         o: nat) {
    && 1 <= f <= l <= o <= |s| == |a|
    && forall u: nat {:trigger OpenParts(s, f, o, u)} :: OpenParts(s, f, o, u) ==> Parts(s, a, taken, rest, f, l, o)
  }

  lemma LayoutMeans(s: seq<string>, a: seq<string>, taken: seq<string>, rest: seq<string>, f: nat, l: nat, o: nat)
    requires Layout(s, a, taken, rest, f, l, o)
    ensures Parts(s, a, taken, rest, f, l, o)
  {
    assert OpenParts(s, f, o, 0);
  }

  lemma LayoutSettled(s: seq<string>, a: seq<string>, taken: seq<string>, rest: seq<string>, f: nat, l: nat, o: nat)
    requires Layout(s, a, taken, rest, f, l, o)
    ensures Layout(Exchanged(s, f, l, o), a, taken, rest, f + o - l, o, o)
    ensures f == l ==> Layout(s, a, taken, rest, o, o, o)
  {
    LayoutMeans(s, a, taken, rest, f, l, o);
    ExchangedParts(s, f, l, o, Exchanged(s, f, l, o));
  }

  lemma SameFrom(s: seq<string>, a: seq<string>, o: nat, k: nat)
    requires o <= k <= |s| == |a| && s[o..] == a[o..]
    ensures s[o..k] == a[o..k] && s[k..] == a[k..]
  {
    assert s[o..k] == s[o..][..k - o];
    assert a[o..k] == a[o..][..k - o];
    assert s[k..] == s[o..][k - o..];
    assert a[k..] == a[o..][k - o..];
  }

  /** Elements passed right behind the non-options. */
  lemma LayoutSkipped(s: seq<string>, a: seq<string>, taken: seq<string>, rest: seq<string>, f: nat, o: nat, k: nat)
    requires Layout(s, a, taken, rest, f, o, o) && o <= k <= |a|
    ensures Layout(s, a, taken, rest + a[o..k], f, k, k)
  {
    LayoutMeans(s, a, taken, rest, f, o, o);
    SameFrom(s, a, o, k);
    assert s[f..k] == s[f..o] + s[o..k];
  }

  /** Elements taken. */
  lemma LayoutTaken(s: seq<string>, a: seq<string>, taken: seq<string>, rest: seq<string>, f: nat, l: nat, o: nat,
                    k: nat)
    requires Layout(s, a, taken, rest, f, l, o) && o <= k <= |a|
    ensures Layout(s, a, taken + a[o..k], rest, f, l, k)
  {
    LayoutMeans(s, a, taken, rest, f, l, o);
    SameFrom(s, a, o, k);
    assert s[l..k] == s[l..o] + s[o..k];
  }

  ghost predicate OpenScan(i: nat, w: string, seen: Scanned, u: nat) {
    true
  }

  /** From (i, w) the scan sees what seen says and stands at (i', w'). The equation stands under
      a quantifier that only ReachesMeans opens, so that callers need not unfold the scan. */
  ghost predicate Reaches(cfg: Config, a: seq<string>, i: nat, w: string, seen: Scanned, i': nat, w': string) {
    && Position(a, i, w) && Position(a, i', w')
    && forall u: nat {:trigger OpenScan(i, w, seen, u)} :: OpenScan(i, w, seen, u) ==>
       Scan(cfg, a, i, w) == Then(seen, Scan(cfg, a, i', w'))
  }

  lemma ReachesMeans(cfg: Config, a: seq<string>, i: nat, w: string, seen: Scanned, i': nat, w': string)
    requires Reaches(cfg, a, i, w, seen, i', w')
    ensures Scan(cfg, a, i, w) == Then(seen, Scan(cfg, a, i', w'))
  {
    assert OpenScan(i, w, seen, 0);
  }

  lemma ReachesSelf(cfg: Config, a: seq<string>, i: nat, w: string)
    requires Position(a, i, w)
    ensures Reaches(cfg, a, i, w, Scanned([], [], []), i, w)
  {
  }

  lemma ThenAssociates(x: Scanned, y: Scanned, z: Scanned)
    ensures Then(Then(x, y), z) == Then(x, Then(y, z))
  {
  }

  lemma ReachesOn(cfg: Config, a: seq<string>, i: nat, w: string, seen: Scanned, i': nat, w': string, more: Scanned,
                  i'': nat, w'': string)
    requires Reaches(cfg, a, i, w, seen, i', w') && Reaches(cfg, a, i', w', more, i'', w'')
    ensures Reaches(cfg, a, i, w, Then(seen, more), i'', w'')
  {
    ReachesMeans(cfg, a, i, w, seen, i', w');
    ReachesMeans(cfg, a, i', w', more, i'', w'');
    ThenAssociates(seen, more, Scan(cfg, a, i'', w''));
  }

  lemma ReachesNonOption(cfg: Config, a: seq<string>, i: nat)
    requires i < |a| && NonOption(a[i])
    ensures Reaches(cfg, a, i, "", Scanned([], [], [a[i]]), i + 1, "")
  {
  }

  lemma ReachesOption(cfg: Config, a: seq<string>, i: nat)
    requires i < |a| && !NonOption(a[i]) && a[i] != "--"
    ensures Reaches(cfg, a, i, "", Scanned([], [], []), i, Start(cfg, a[i]))
  {
  }

  lemma ReachesEvent(cfg: Config, a: seq<string>, i: nat, w: string, m: Move)
    requires Position(a, i, w) && w != "" && m == Step(cfg, a[i], w, NextOf(a, i))
    ensures Reaches(cfg, a, i, w, Scanned([m.event], a[i..i + m.past], []), i + m.past, m.left)
  {
  }

  /** From i to k the scan passes non-options only. */
  ghost predicate Skips(cfg: Config, a: seq<string>, i: nat, k: nat) {
    i <= k <= |a| && Reaches(cfg, a, i, "", Scanned([], [], a[i..k]), k, "")
  }

  lemma SkipOne(cfg: Config, a: seq<string>, i: nat, k: nat)
    requires Skips(cfg, a, i, k) && k < |a| && NonOption(a[k])
    ensures Skips(cfg, a, i, k + 1)
  {
    var x, y := Scanned([], [], a[i..k]), Scanned([], [], [a[k]]);
    assert Then(x, y) == Scanned([], [], a[i..k + 1]);
    ReachesNonOption(cfg, a, k);
    ReachesOn(cfg, a, i, "", x, k, "", y, k + 1, "");
  }

  /** The scan ends with seen from (i, w). */
  ghost predicate Ends(cfg: Config, a: seq<string>, i: nat, w: string, seen: Scanned) {
    Position(a, i, w) && forall u: nat {:trigger OpenScan(i, w, seen, u)} :: OpenScan(i, w, seen, u) ==>
      Scan(cfg, a, i, w) == seen
  }

  lemma EndsMeans(cfg: Config, a: seq<string>, i: nat, w: string, seen: Scanned)
    requires Ends(cfg, a, i, w, seen)
    ensures Scan(cfg, a, i, w) == seen
  {
    assert OpenScan(i, w, seen, 0);
  }

  lemma EndsAfter(cfg: Config, a: seq<string>, i: nat, w: string, seen: Scanned, i': nat, w': string, last: Scanned)
    requires Reaches(cfg, a, i, w, seen, i', w') && Ends(cfg, a, i', w', last)
    ensures Ends(cfg, a, i, w, Then(seen, last))
  {
    EndsMeans(cfg, a, i', w', last);
    ReachesMeans(cfg, a, i, w, seen, i', w');
  }

  lemma EndsHere(cfg: Config, a: seq<string>, i: nat)
    requires i <= |a|
    ensures i == |a| ==> Ends(cfg, a, i, "", Scanned([], [], []))
    ensures i < |a| && a[i] == "--" ==> Ends(cfg, a, i, "", Scanned([], ["--"], a[i + 1..]))
  {
  }

  /** argv once everything is scanned. */
  ghost predicate Final(s: seq<string>, a: seq<string>, taken: seq<string>, rest: seq<string>, optind: nat) {
    a != [] && s == [a[0]] + taken + rest && optind == 1 + |taken|
  }

  class Scanner {
    const cfg: Config
    const argv: array<string>
    var optind: nat
    var nextchar: string       // "" also for the null pointer
    var firstNonopt: nat
    var lastNonopt: nat
    var optarg: Option<string>
    var optopt: Option<char>

    constructor (cfg: Config, argv: array<string>)
      ensures this.cfg == cfg && this.argv == argv && optind == 0
    {
      this.cfg, this.argv := cfg, argv;
      optind, nextchar, firstNonopt, lastNonopt, optarg, optopt := 0, "", 0, 0, None, None;
    }

    ghost predicate At(a: seq<string>, taken: seq<string>, rest: seq<string>)
      reads this, argv
    {
      Layout(argv[..], a, taken, rest, firstNonopt, lastNonopt, optind) && Position(a, optind, nextchar)
    }

    /** exchange. */
    method Exchange()
      requires firstNonopt <= lastNonopt <= optind <= argv.Length
      modifies this`firstNonopt, this`lastNonopt, argv
      ensures argv[..] == Exchanged(old(argv[..]), old(firstNonopt), old(lastNonopt), optind)
      ensures firstNonopt == old(firstNonopt) + optind - old(lastNonopt) && lastNonopt == optind
    {
      ghost var s0 := argv[..];
      Reverse(argv, firstNonopt, optind);
      var first := firstNonopt;
      firstNonopt := firstNonopt + (optind - lastNonopt);
      ghost var s1 := argv[..];
      Reverse(argv, first, firstNonopt);
      lastNonopt := optind;
      ghost var s2 := argv[..];
      Reverse(argv, firstNonopt, lastNonopt);
      ghost var s3 := argv[..];
      ThreeReversals(s0, s1, s2, s3, first, old(lastNonopt), optind);
    }

    /** The exchange at the start of a call, if options followed the non-options. */
    method Settle(ghost a: seq<string>, ghost taken: seq<string>, ghost rest: seq<string>)
      requires At(a, taken, rest)
      modifies this`firstNonopt, this`lastNonopt, argv
      ensures Layout(argv[..], a, taken, rest, firstNonopt, optind, optind)
    {
      LayoutSettled(argv[..], a, taken, rest, firstNonopt, lastNonopt, optind);
      if firstNonopt != lastNonopt && lastNonopt != optind {
        Exchange();
      } else if lastNonopt != optind {
        firstNonopt := optind;
      }
    }

    /** The loop that passes non-options. */
    method Skip(ghost a: seq<string>)
      requires optind <= argv.Length == |a| && argv[optind..] == a[optind..]
      modifies this`optind
      ensures Skips(cfg, a, old(optind), optind)
      ensures optind < argv.Length ==> argv[optind] == a[optind] && !NonOption(argv[optind])
    {
      ghost var i := optind;
      ReachesSelf(cfg, a, i, "");
      assert a[i..i] == [];
      while optind < argv.Length && NonOption(argv[optind])
        invariant i <= optind <= argv.Length && Skips(cfg, a, i, optind)
      {
        assert argv[optind] == argv[i..][optind - i];
        SkipOne(cfg, a, i, optind);
        optind := optind + 1;
      }
      assert optind < argv.Length ==> argv[optind] == argv[i..][optind - i];
    }

    /** The first part of a call that begins a new element: exchange, and skip non-options. */
    method Advance(ghost a: seq<string>, ghost taken: seq<string>, ghost rest: seq<string>)
      requires At(a, taken, rest) && nextchar == ""
      modifies this`optind, this`firstNonopt, this`lastNonopt, argv
      ensures Skips(cfg, a, old(optind), optind)
      ensures lastNonopt == optind && At(a, taken, rest + a[old(optind)..optind])
      ensures optind < argv.Length ==> argv[optind] == a[optind] && !NonOption(argv[optind])
    {
      Settle(a, taken, rest);
      ghost var i := optind;
      LayoutMeans(argv[..], a, taken, rest, firstNonopt, i, i);
      Skip(a);
      LayoutSkipped(argv[..], a, taken, rest, firstNonopt, i, optind);
      lastNonopt := optind;
    }

    /** The special element "--": taken like an option, and everything after it passed. */
    method EndOfOptions(ghost a: seq<string>, ghost taken: seq<string>, ghost rest: seq<string>)
      requires At(a, taken, rest) && nextchar == "" && lastNonopt == optind
      requires optind < argv.Length && a[optind] == "--"
      modifies this`optind, this`firstNonopt, this`lastNonopt, argv
      ensures optind == lastNonopt == argv.Length
      ensures Layout(argv[..], a, taken + ["--"], rest + a[old(optind) + 1..], firstNonopt, optind, optind)
    {
      ghost var i := optind;
      LayoutTaken(argv[..], a, taken, rest, firstNonopt, lastNonopt, i, i + 1);
      assert a[i..i + 1] == ["--"];
      optind := optind + 1;
      LayoutSettled(argv[..], a, taken + ["--"], rest, firstNonopt, lastNonopt, optind);
      if firstNonopt != lastNonopt && lastNonopt != optind {
        Exchange();
      } else if firstNonopt == lastNonopt {
        firstNonopt := optind;
      }
      assert Layout(argv[..], a, taken + ["--"], rest, firstNonopt, i + 1, i + 1);
      LayoutSkipped(argv[..], a, taken + ["--"], rest, firstNonopt, i + 1, argv.Length);
      assert a[i + 1..argv.Length] == a[i + 1..];
      lastNonopt := argv.Length;
      optind := argv.Length;
    }

    /** The decoding of one option character. */
    method DecodeShort() returns (e: Event)
      requires optind < argv.Length && nextchar != ""
      modifies this`optind, this`nextchar, this`optarg, this`optopt
      ensures Move(e, nextchar, optind - old(optind)) == ShortStep(cfg, old(nextchar), NextOf(argv[..], old(optind)))
      ensures optarg == e.arg && optopt == (if e.optopt.Some? then e.optopt else old(optopt))
    {
      var c := nextchar[0];
      var code := c as int;
      nextchar := nextchar[1..];
      optarg := None;
      var temp := Index(cfg.optstring, c);
      if nextchar == "" {
        optind := optind + 1;
      }
      if temp == |cfg.optstring| || c == ':' {
        optopt := Some(c);
        return Event(BadOption, None, None, None, Some(Illegal), Some(c));
      }
      if temp + 1 < |cfg.optstring| && cfg.optstring[temp + 1] == ':' {
        if temp + 2 < |cfg.optstring| && cfg.optstring[temp + 2] == ':' {
          if nextchar != "" {
            optarg := Some(nextchar);
            optind := optind + 1;
          }
          nextchar := "";
        } else {
          if nextchar != "" {
            optarg := Some(nextchar);
            optind := optind + 1;
          } else if optind == argv.Length {
            optopt := Some(c);
            nextchar := "";
            code := if cfg.optstring[0] == ':' then ':' as int else BadOption;
            return Event(code, None, None, None, Some(MissingArgument), Some(c));
          } else {
            optarg := Some(argv[optind]);
            optind := optind + 1;
          }
          nextchar := "";
        }
      }
      return Event(code, optarg, None, None, None, None);
    }

    /** The part of a call that handles a long option found in the table. */
    method DecodeLong(o: LongOption, i: nat, s: nat) returns (e: Event)
      requires optind < argv.Length && s == FirstIndex(nextchar, '=')
      modifies this`optind, this`nextchar, this`optarg
      ensures Move(e, nextchar, optind - old(optind))
        == LongStep(cfg, o, i, old(nextchar), NextOf(argv[..], old(optind)))
      ensures optarg == e.arg
    {
      optind := optind + 1;
      optarg := None;
      if s < |nextchar| {
        if o.hasArg != 0 {
          optarg := Some(nextchar[s + 1..]);
        } else {
          nextchar := "";
          return Bad(Unwanted);
        }
      } else if o.hasArg == 1 {
        if optind < argv.Length {
          optarg := Some(argv[optind]);
          optind := optind + 1;
        } else {
          nextchar := "";
          return Event(MissingCode(cfg.optstring), None, None, None, Some(MissingArgument), None);
        }
      }
      nextchar := "";
      if o.flag.Some? {
        return Event(0, optarg, Some(i), o.flag, None, None);
      }
      return Event(o.val, optarg, Some(i), None, None, None);
    }

    /** The next event of the element at optind. */
    method Decode(ghost elem: string, ghost next: Option<string>) returns (e: Event, ghost m: Move)
      requires optind < argv.Length && nextchar != "" && !NonOption(argv[optind])
      requires elem == argv[optind] && next == NextOf(argv[..], optind)
      modifies this`optind, this`nextchar, this`optarg, this`optopt
      ensures m == Step(cfg, elem, old(nextchar), next) == Move(e, nextchar, optind - old(optind))
      ensures optarg == e.arg && optopt == (if e.optopt.Some? then e.optopt else old(optopt))
    {
      ghost var k := optind;
      StepMeans(cfg, elem, nextchar, next);
      optarg := None;
      if cfg.longopts.Some? && (argv[optind][1] == '-' || cfg.longOnly) {
        var s := Index(nextchar, '=');
        var found := FindLong(cfg.longopts.value, nextchar[..s]);
        LookupUnique(cfg.longopts.value, nextchar[..s], found, LookupOf(cfg.longopts.value, nextchar[..s]));
        if found.Several? {
          nextchar := "";
          optind := optind + 1;
          return Bad(Ambiguous), Move(Bad(Ambiguous), "", 1);
        }
        if found.Found? {
          e := DecodeLong(cfg.longopts.value[found.at], found.at, s);
          m := Move(e, nextchar, optind - k);
          return;
        }
        if !cfg.longOnly || argv[optind][1] == '-' || nextchar[0] !in cfg.optstring {
          nextchar := "";
          optind := optind + 1;
          return Bad(Unrecognized), Move(Bad(Unrecognized), "", 1);
        }
      }
      e := DecodeShort();
      m := Move(e, nextchar, optind - k);
    }

    /** Where the scan stands before a call; the first call starts it. */
    ghost predicate Ready(a: seq<string>, taken: seq<string>, rest: seq<string>)
      reads this, argv
    {
      if optind == 0 then argv.Length > 0 && argv[..] == a && taken == [] && rest == [] && nextchar == ""
      else At(a, taken, rest)
    }

    /** The element the next call looks at. */
    ghost function Place(): nat
      reads this
    {
      if optind == 0 then 1 else optind
    }

    /** The test for "--" and for the end of argv, at an element that is no non-option. */
    method Stop(ghost a: seq<string>, ghost taken: seq<string>, ghost rest: seq<string>)
      returns (done: bool, ghost last: Scanned)
      requires At(a, taken, rest) && nextchar == "" && lastNonopt == optind
      requires optind < argv.Length ==> argv[optind] == a[optind]
      modifies this`optind, this`firstNonopt, this`lastNonopt, argv
      ensures last.events == []
      ensures !done ==> last == Scanned([], [], []) && optind == old(optind)
      ensures !done ==> optind < argv.Length && a[optind] != "--"
      ensures !done ==> argv[optind] == a[optind] && At(a, taken, rest)
      ensures done ==> Ends(cfg, a, old(optind), "", last)
      ensures done ==> Final(argv[..], a, taken + last.taken, rest + last.rest, optind)
    {
      last := Scanned([], [], []);
      EndsHere(cfg, a, optind);
      if optind != argv.Length && argv[optind] == "--" {
        last := Scanned([], ["--"], a[optind + 1..]);
        EndOfOptions(a, taken, rest);
      } else {
        assert taken + last.taken == taken && rest + last.rest == rest;
      }
      if optind == argv.Length {
        LayoutFinal(argv[..], a, taken + last.taken, rest + last.rest, firstNonopt);
        if firstNonopt != lastNonopt {
          optind := firstNonopt;
        }
        return true, last;
      }
      return false, last;
    }

    /** The part of a call that looks for the next option element, and finds one or the end. */
    method Begin(ghost a: seq<string>, ghost taken: seq<string>, ghost rest: seq<string>)
      returns (done: bool, ghost seen: Scanned)
      requires At(a, taken, rest) && nextchar == ""
      modifies this`optind, this`nextchar, this`firstNonopt, this`lastNonopt, argv
      ensures seen.events == []
      ensures !done ==> nextchar != "" && seen.taken == []
      ensures !done ==> At(a, taken, rest + seen.rest)
      ensures !done ==> Reaches(cfg, a, old(optind), "", seen, optind, nextchar)
      ensures done ==> Ends(cfg, a, old(optind), "", seen)
      ensures done ==> Final(argv[..], a, taken + seen.taken, rest + seen.rest, optind)
    {
      ghost var i := optind;
      Advance(a, taken, rest);
      ghost var k, last := optind, Scanned([], [], []);
      seen := Scanned([], [], a[i..k]);
      done, last := Stop(a, taken, rest + a[i..k]);
      ThenSkipped(rest, seen, last);
      if done {
        EndsAfter(cfg, a, i, "", seen, k, "", last);
        return true, Then(seen, last);
      }
      nextchar := Start(cfg, argv[optind]);
      ReachesOption(cfg, a, k);
      ReachesOn(cfg, a, i, "", seen, k, "", last, k, nextchar);
      return false, seen;
    }

    /** The next option element, or the unread part of the current one. */
    method Locate(ghost a: seq<string>, ghost taken: seq<string>, ghost rest: seq<string>)
      returns (done: bool, ghost seen: Scanned)
      requires At(a, taken, rest)
      modifies this`optind, this`nextchar, this`firstNonopt, this`lastNonopt, argv
      ensures seen.events == []
      ensures !done ==> nextchar != "" && seen.taken == []
      ensures !done ==> At(a, taken, rest + seen.rest)
      ensures !done ==> Reaches(cfg, a, old(optind), old(nextchar), seen, optind, nextchar)
      ensures done ==> Ends(cfg, a, old(optind), old(nextchar), seen)
      ensures done ==> Final(argv[..], a, taken + seen.taken, rest + seen.rest, optind)
    {
      if nextchar == "" {
        done, seen := Begin(a, taken, rest);
      } else {
        done, seen := false, Scanned([], [], []);
        ReachesSelf(cfg, a, optind, nextchar);
        assert rest + seen.rest == rest;
      }
    }

    /** The first part of every call; the first call sets up the scan. */
    method Initialize(ghost a: seq<string>, ghost taken: seq<string>, ghost rest: seq<string>)
      requires Ready(a, taken, rest)
      modifies this`optind, this`nextchar, this`firstNonopt, this`lastNonopt, this`optarg
      ensures At(a, taken, rest) && optind == old(Place()) && nextchar == old(nextchar) && optarg == None
    {
      optarg := None;
      if optind == 0 {
        firstNonopt, lastNonopt, optind := 1, 1, 1;
        nextchar := "";
      }
    }

    /** The part of a call that reads an event from the element at optind. */
    method Take(ghost a: seq<string>, ghost taken: seq<string>, ghost rest: seq<string>)
      returns (e: Event, ghost one: Scanned)
      requires At(a, taken, rest) && nextchar != ""
      modifies this`optind, this`nextchar, this`optarg, this`optopt
      ensures one.events == [e] && one.rest == [] && optind > 0 && At(a, taken + one.taken, rest)
      ensures Reaches(cfg, a, old(optind), old(nextchar), one, optind, nextchar)
      ensures optarg == e.arg && optopt == if e.optopt.Some? then e.optopt else old(optopt)
    {
      ghost var k, w, s := optind, nextchar, argv[..];
      NextSame(s, a, taken, rest, firstNonopt, lastNonopt, k);
      ghost var m;
      e, m := Decode(a[k], NextOf(a, k));
      one := Scanned([e], a[k..optind], []);
      ReachesEvent(cfg, a, k, w, m);
      assert argv[..] == s;
      LayoutTaken(argv[..], a, taken, rest, firstNonopt, lastNonopt, k, optind);
    }

    /** One call of getopt. An event extends what the calls so far have seen of the plain scan;
        EOF comes exactly when that scan has no event left, with the non-options all at the end. */
    method Next(ghost a: seq<string>, ghost taken: seq<string>, ghost rest: seq<string>)
      returns (r: Option<Event>, ghost seen: Scanned)
      requires Permutes(cfg) && Ready(a, taken, rest)
      modifies this`optind, this`nextchar, this`firstNonopt, this`lastNonopt, this`optarg, this`optopt, argv
      ensures seen.events == if r.Some? then [r.value] else []
      ensures r.Some? ==> optind > 0 && At(a, taken + seen.taken, rest + seen.rest)
      ensures r.Some? ==> Reaches(cfg, a, old(Place()), old(nextchar), seen, optind, nextchar)
      ensures r.None? ==> Ends(cfg, a, old(Place()), old(nextchar), seen)
      ensures r.None? ==> Final(argv[..], a, taken + seen.taken, rest + seen.rest, optind)
      ensures optarg == if r.Some? then r.value.arg else None
      ensures optopt == if r.Some? && r.value.optopt.Some? then r.value.optopt else old(optopt)
    {
      Initialize(a, taken, rest);
      ghost var i, w := optind, nextchar;
      var done;
      done, seen := Locate(a, taken, rest);
      if done {
        return None, seen;
      }
      ghost var k, v := optind, nextchar;
      var e; ghost var one;
      e, one := Take(a, taken, rest + seen.rest);
      ReachesOn(cfg, a, i, w, seen, k, v, one, optind, nextchar);
      ThenAlone(seen, one);
      seen := Then(seen, one);
      r := Some(e);
    }

    /** A caller that asks until EOF. It gets the events of a scan of the original argv that
        moves nothing; argv ends up as the program name, the consumed elements and the
        non-options; and optind is the first non-option. */
    method All() returns (events: seq<Event>, ghost whole: Scanned)
      requires Permutes(cfg) && optind == 0 && nextchar == "" && argv.Length > 0
      modifies this`optind, this`nextchar, this`firstNonopt, this`lastNonopt, this`optarg, this`optopt, argv
      ensures whole == Scan(cfg, old(argv[..]), 1, "") && events == whole.events
      ensures argv[..] == [old(argv[0])] + whole.taken + whole.rest
      ensures optind == 1 + |whole.taken|
    {
      ghost var a := argv[..];
      events := [];
      whole := Scanned([], [], []);
      ReachesSelf(cfg, a, 1, "");
      var more := true;
      while more
        invariant more ==> Ready(a, whole.taken, whole.rest) && Reaches(cfg, a, 1, "", whole, Place(), nextchar)
        invariant !more ==> Ends(cfg, a, 1, "", whole) && Final(argv[..], a, whole.taken, whole.rest, optind)
        invariant whole.events == events
        decreases more, if more && Position(a, Place(), nextchar) then |Scan(cfg, a, Place(), nextchar).events| else 0
      {
        ghost var i, w := Place(), nextchar;
        var r; ghost var seen;
        r, seen := Next(a, whole.taken, whole.rest);
        if r.Some? {
          ReachesMeans(cfg, a, i, w, seen, optind, nextchar);
          ReachesOn(cfg, a, 1, "", whole, i, w, seen, optind, nextchar);
          events := events + [r.value];
        } else {
          EndsAfter(cfg, a, 1, "", whole, i, w, seen);
          more := false;
        }
        whole := Then(whole, seen);
      }
      EndsMeans(cfg, a, 1, "", whole);
    }
  }

  lemma ThenAlone(x: Scanned, y: Scanned)
    requires x.events == [] && x.taken == [] && y.rest == []
    ensures Then(x, y) == Scanned(y.events, y.taken, x.rest)
  {
  }

  lemma ThenSkipped(rest: seq<string>, x: Scanned, y: Scanned)
    requires x.events == [] && x.taken == [] && y.events == []
    ensures Then(x, y) == Scanned([], y.taken, x.rest + y.rest)
    ensures y.taken == [] && y.rest == [] ==> Then(x, y) == x
    ensures rest + (x.rest + y.rest) == rest + x.rest + y.rest
  {
  }

  lemma LayoutFinal(s: seq<string>, a: seq<string>, taken: seq<string>, rest: seq<string>, f: nat)
    requires Layout(s, a, taken, rest, f, |s|, |s|)
    ensures s == [a[0]] + taken + rest && f == 1 + |taken|
  {
    LayoutMeans(s, a, taken, rest, f, |s|, |s|);
    assert s == [s[0]] + s[1..f] + s[f..];
  }

  lemma NextSame(s: seq<string>, a: seq<string>, taken: seq<string>, rest: seq<string>, f: nat, l: nat, i: nat)
    requires Layout(s, a, taken, rest, f, l, i) && i < |a|
    ensures s[i] == a[i] && NextOf(s, i) == NextOf(a, i)
  {
    LayoutMeans(s, a, taken, rest, f, l, i);
    assert s[i] == s[i..][0];
    if i + 1 < |a| {
      assert s[i + 1] == s[i..][1];
    }
  }

  lemma ExchangedParts(s: seq<string>, f: nat, l: nat, o: nat, t: seq<string>)
    requires 1 <= f <= l <= o <= |s| && t == Exchanged(s, f, l, o)
    ensures t[0] == s[0] && t[o..] == s[o..]
    ensures t[1..f + o - l] == s[1..f] + s[l..o] && t[f + o - l..o] == s[f..l]
  {
  }

  // ---------- What the scan promises ----------

  /** Woven in from the front. */
  lemma WeaveTaken(pre: seq<string>, a: seq<string>, taken: seq<string>, rest: seq<string>)
    requires Woven(a, taken, rest)
    ensures Woven(pre + a, pre + taken, rest)
  {
    if pre == [] {
      assert pre + a == a && pre + taken == taken;
    } else {
      WeaveTaken(pre[1..], a, taken, rest);
      assert (pre + a)[1..] == pre[1..] + a && (pre + taken)[1..] == pre[1..] + taken;
    }
  }

  lemma WeaveRest(a: seq<string>)
    ensures Woven(a, [], a)
  {
  }

  /** Every element ends up either consumed or passed, both in the original order. */
  lemma {:induction false} ScanWeaves(cfg: Config, a: seq<string>, i: nat, w: string)
    requires Position(a, i, w)
    ensures Woven(a[i..], Scan(cfg, a, i, w).taken, Scan(cfg, a, i, w).rest)
    decreases |a| - i, if w == "" then 1 else 0, |w|
  {
    var r := Scan(cfg, a, i, w);
    if w != "" {
      var m := Step(cfg, a[i], w, NextOf(a, i));
      ScanWeaves(cfg, a, i + m.past, m.left);
      var r' := Scan(cfg, a, i + m.past, m.left);
      WeaveTaken(a[i..i + m.past], a[i + m.past..], r'.taken, r'.rest);
      assert a[i..] == a[i..i + m.past] + a[i + m.past..];
      assert r.taken == a[i..i + m.past] + r'.taken && r.rest == r'.rest;
    } else if i == |a| {
    } else if NonOption(a[i]) {
      ScanWeaves(cfg, a, i + 1, "");
      var r' := Scan(cfg, a, i + 1, "");
      assert a[i..][1..] == a[i + 1..] && r.rest[1..] == r'.rest && r.taken == r'.taken;
    } else if a[i] == "--" {
      WeaveRest(a[i + 1..]);
      assert a[i..][1..] == a[i + 1..];
    } else {
      ScanWeaves(cfg, a, i, Start(cfg, a[i]));
    }
  }

  /** The scan ran out of elements where an option still wanted its argument. */
  predicate Lacks(events: seq<Event>) {
    events != [] && events[|events| - 1].fault == Some(MissingArgument)
  }

  predicate AllNonOptions(s: seq<string>) {
    forall i :: 0 <= i < |s| ==> NonOption(s[i])
  }

  /** An event looks at the following element only to take it or to miss it. */
  lemma StepIgnoresNext(cfg: Config, elem: string, w: string, next: Option<string>, next': Option<string>)
    requires !NonOption(elem) && w != ""
    requires Step(cfg, elem, w, next).past < 2 && Step(cfg, elem, w, next).event.fault != Some(MissingArgument)
    ensures Step(cfg, elem, w, next') == Step(cfg, elem, w, next)
  {
    StepMeans(cfg, elem, w, next);
    StepMeans(cfg, elem, w, next');
  }

  lemma MissingIsLast(cfg: Config, elem: string, w: string, next: Option<string>)
    requires !NonOption(elem) && w != "" && Step(cfg, elem, w, next).event.fault == Some(MissingArgument)
    ensures next == None && Step(cfg, elem, w, next).past == 1
    ensures forall x :: Step(cfg, elem, w, Some(x)).event.fault == None
  {
    StepMeans(cfg, elem, w, next);
    forall x
      ensures Step(cfg, elem, w, Some(x)).event.fault == None
    {
      StepMeans(cfg, elem, w, Some(x));
    }
  }

  lemma {:induction false} TakesCurrent(cfg: Config, a: seq<string>, i: nat, w: string)
    requires Position(a, i, w) && w != ""
    ensures Scan(cfg, a, i, w).taken != [] && Scan(cfg, a, i, w).taken[0] == a[i]
    decreases |w|
  {
    var m := Step(cfg, a[i], w, NextOf(a, i));
    if m.past == 0 {
      TakesCurrent(cfg, a, i, m.left);
      assert a[i..i] == [];
    }
  }

  /** p from k on is what the scan of a from (i, w) takes, then non-options passed before, then
      what the scan passes. */
  ghost predicate Sorted(cfg: Config, a: seq<string>, i: nat, w: string, p: seq<string>, k: nat, pre: seq<string>) {
    && Position(a, i, w) && k <= |p| && AllNonOptions(pre)
    && p[k..] == Scan(cfg, a, i, w).taken + pre + Scan(cfg, a, i, w).rest
  }

  /** Both scans read the same element; unless the argument is missing in a and found in p, they
      read the same event from it. */
  lemma {:induction false} SortedStep(cfg: Config, a: seq<string>, i: nat, w: string, p: seq<string>, k: nat,
                                      pre: seq<string>, m: Move)
    requires Sorted(cfg, a, i, w, p, k, pre) && w != "" && m == Step(cfg, a[i], w, NextOf(a, i))
    ensures k < |p| && p[k] == a[i] && k + m.past <= |p|
    ensures m.event.fault != Some(MissingArgument) || pre == [] ==> m == Step(cfg, p[k], w, NextOf(p, k))
    ensures p[k..k + m.past] == a[i..i + m.past]
    ensures Sorted(cfg, a, i + m.past, m.left, p, k + m.past, pre)
  {
    TakesCurrent(cfg, a, i, w);
    var r, r' := Scan(cfg, a, i, w), Scan(cfg, a, i + m.past, m.left);
    assert p[k] == p[k..][0];
    assert r.taken == a[i..i + m.past] + r'.taken && r.rest == r'.rest;
    SplitOff(p, k, a[i..i + m.past], r'.taken, pre, r'.rest);
    if m.past == 2 {
      assert p[k + 1] == p[k..k + 2][1] == a[i + 1];
    } else if m.event.fault == Some(MissingArgument) {
      MissingIsLast(cfg, a[i], w, NextOf(a, i));
      assert p[k + 1..] == pre;
    } else {
      StepIgnoresNext(cfg, a[i], w, NextOf(a, i), NextOf(p, k));
    }
  }

  lemma SplitOff(p: seq<string>, k: nat, x: seq<string>, y: seq<string>, z: seq<string>, u: seq<string>)
    requires k <= |p| && p[k..] == (x + y) + z + u
    ensures k + |x| <= |p| && p[k..k + |x|] == x && p[k + |x|..] == y + z + u
  {
  }

  lemma {:induction false} ScanNonOptions(cfg: Config, p: seq<string>, k: nat)
    requires k <= |p| && AllNonOptions(p[k..])
    ensures Scan(cfg, p, k, "") == Scanned([], [], p[k..])
    decreases |p| - k
  {
    if k < |p| {
      assert NonOption(p[k..][0]);
      assert p[k + 1..] == p[k..][1..];
      ScanNonOptions(cfg, p, k + 1);
    }
  }

  /** The scan of p from k finds what the scan of a from i finds, and passes pre as well. */
  ghost predicate FindsSame(cfg: Config, a: seq<string>, i: nat, w: string, p: seq<string>, k: nat, pre: seq<string>) {
    && Position(a, i, w) && Position(p, k, w)
    && var r := Scan(cfg, a, i, w);
       Scan(cfg, p, k, w) == Scanned(r.events, r.taken, pre + r.rest)
  }

  lemma {:induction false} FindsSameEvent(cfg: Config, a: seq<string>, i: nat, w: string, p: seq<string>, k: nat,
                                          pre: seq<string>,
                       m: Move)
    requires Position(a, i, w) && Position(p, k, w) && w != "" && k + m.past <= |p|
    requires m == Step(cfg, a[i], w, NextOf(a, i)) == Step(cfg, p[k], w, NextOf(p, k))
    requires p[k..k + m.past] == a[i..i + m.past] && FindsSame(cfg, a, i + m.past, m.left, p, k + m.past, pre)
    ensures FindsSame(cfg, a, i, w, p, k, pre)
  {
    ThenPasses(Scanned([m.event], a[i..i + m.past], []), Scan(cfg, a, i + m.past, m.left), pre);
  }

  lemma ThenPasses(s: Scanned, r: Scanned, pre: seq<string>)
    requires s.rest == []
    ensures Then(s, Scanned(r.events, r.taken, pre + r.rest))
         == Scanned(Then(s, r).events, Then(s, r).taken, pre + Then(s, r).rest)
  {
  }

  lemma FindsSameEnd(cfg: Config, a: seq<string>, i: nat, p: seq<string>, k: nat, pre: seq<string>)
    requires Sorted(cfg, a, i, "", p, k, pre) && (i == |a| || a[i] == "--")
    ensures FindsSame(cfg, a, i, "", p, k, pre)
  {
    if i == |a| {
      assert p[k..] == pre;
      ScanNonOptions(cfg, p, k);
    } else {
      SplitOff(p, k, ["--"], [], pre, a[i + 1..]);
      assert p[k] == p[k..][0];
      assert [] + pre + a[i + 1..] == pre + a[i + 1..];
    }
  }

  /** No argument is missing for which there would be a non-option. */
  ghost predicate Complete(cfg: Config, a: seq<string>, i: nat, w: string, pre: seq<string>)
    requires Position(a, i, w)
  {
    Lacks(Scan(cfg, a, i, w).events) ==> pre == [] && Scan(cfg, a, i, w).rest == []
  }

  lemma CompleteEvent(cfg: Config, a: seq<string>, i: nat, w: string, pre: seq<string>, m: Move)
    requires Position(a, i, w) && w != "" && m == Step(cfg, a[i], w, NextOf(a, i)) && Complete(cfg, a, i, w, pre)
    ensures Complete(cfg, a, i + m.past, m.left, pre)
    ensures m.event.fault == Some(MissingArgument) ==> pre == []
  {
    if m.event.fault == Some(MissingArgument) {
      MissingIsLast(cfg, a[i], w, NextOf(a, i));
    }
  }

  lemma FindsSameOption(cfg: Config, a: seq<string>, i: nat, p: seq<string>, k: nat, pre: seq<string>)
    requires i < |a| && k < |p| && p[k] == a[i] && !NonOption(a[i]) && a[i] != "--"
    requires FindsSame(cfg, a, i, Start(cfg, a[i]), p, k, pre)
    ensures FindsSame(cfg, a, i, "", p, k, pre)
  {
  }

  lemma FindsSameNonOption(cfg: Config, a: seq<string>, i: nat, p: seq<string>, k: nat, pre: seq<string>)
    requires i < |a| && NonOption(a[i]) && FindsSame(cfg, a, i + 1, "", p, k, pre + [a[i]])
    ensures FindsSame(cfg, a, i, "", p, k, pre)
  {
  }

  /** The scan of the permuted arguments finds the same. */
  lemma {:induction false} ScanAgain(cfg: Config, a: seq<string>, i: nat, w: string, p: seq<string>, k: nat,
                                     pre: seq<string>)
    requires Sorted(cfg, a, i, w, p, k, pre) && Complete(cfg, a, i, w, pre)
    ensures FindsSame(cfg, a, i, w, p, k, pre)
    decreases |a| - i, if w == "" then 1 else 0, |w|
  {
    if w != "" {
      var m := Step(cfg, a[i], w, NextOf(a, i));
      SortedStep(cfg, a, i, w, p, k, pre, m);
      CompleteEvent(cfg, a, i, w, pre, m);
      ScanAgain(cfg, a, i + m.past, m.left, p, k + m.past, pre);
      FindsSameEvent(cfg, a, i, w, p, k, pre, m);
    } else if i == |a| || a[i] == "--" {
      FindsSameEnd(cfg, a, i, p, k, pre);
    } else if NonOption(a[i]) {
      SortedNonOption(cfg, a, i, p, k, pre);
      ScanAgain(cfg, a, i + 1, "", p, k, pre + [a[i]]);
      FindsSameNonOption(cfg, a, i, p, k, pre);
    } else {
      SortedOption(cfg, a, i, p, k, pre);
      ScanAgain(cfg, a, i, Start(cfg, a[i]), p, k, pre);
      FindsSameOption(cfg, a, i, p, k, pre);
    }
  }

  lemma SortedOption(cfg: Config, a: seq<string>, i: nat, p: seq<string>, k: nat, pre: seq<string>)
    requires Sorted(cfg, a, i, "", p, k, pre) && i < |a| && !NonOption(a[i]) && a[i] != "--"
    ensures Sorted(cfg, a, i, Start(cfg, a[i]), p, k, pre) && k < |p| && p[k] == a[i]
    ensures Scan(cfg, a, i, "") == Scan(cfg, a, i, Start(cfg, a[i]))
  {
    TakesCurrent(cfg, a, i, Start(cfg, a[i]));
    assert p[k] == p[k..][0];
  }

  lemma SortedNonOption(cfg: Config, a: seq<string>, i: nat, p: seq<string>, k: nat, pre: seq<string>)
    requires Sorted(cfg, a, i, "", p, k, pre) && i < |a| && NonOption(a[i])
    ensures Sorted(cfg, a, i + 1, "", p, k, pre + [a[i]])
    ensures Scan(cfg, a, i, "").events == Scan(cfg, a, i + 1, "").events
    ensures Scan(cfg, a, i, "").rest == [a[i]] + Scan(cfg, a, i + 1, "").rest
  {
  }

  lemma DiffersMissing(cfg: Config, a: seq<string>, i: nat, w: string, p: seq<string>, k: nat, pre: seq<string>)
    requires Sorted(cfg, a, i, w, p, k, pre) && Position(p, k, w) && w != ""
    requires Step(cfg, a[i], w, NextOf(a, i)).event.fault == Some(MissingArgument)
    requires pre != [] || Scan(cfg, a, i, w).rest != []
    ensures Scan(cfg, p, k, w).events != Scan(cfg, a, i, w).events
  {
    var m := Step(cfg, a[i], w, NextOf(a, i));
    SortedStep(cfg, a, i, w, p, k, pre, m);
    MissingIsLast(cfg, a[i], w, NextOf(a, i));
    assert p[k + 1..] == pre;
    assert Scan(cfg, p, k, w).events[0].fault != Some(MissingArgument);
  }

  lemma {:induction false} DiffersLater(cfg: Config, a: seq<string>, i: nat, w: string, p: seq<string>, k: nat, m: Move)
    requires Position(a, i, w) && Position(p, k, w) && w != "" && k + m.past <= |p|
    requires m == Step(cfg, a[i], w, NextOf(a, i)) == Step(cfg, p[k], w, NextOf(p, k))
    requires Position(a, i + m.past, m.left) && Position(p, k + m.past, m.left)
    requires Scan(cfg, p, k + m.past, m.left).events != Scan(cfg, a, i + m.past, m.left).events
    ensures Scan(cfg, p, k, w).events != Scan(cfg, a, i, w).events
  {
    assert Scan(cfg, p, k, w).events[1..] == Scan(cfg, p, k + m.past, m.left).events;
    assert Scan(cfg, a, i, w).events[1..] == Scan(cfg, a, i + m.past, m.left).events;
  }

  lemma LacksLater(cfg: Config, a: seq<string>, i: nat, w: string, m: Move)
    requires Position(a, i, w) && w != "" && m == Step(cfg, a[i], w, NextOf(a, i))
    requires Lacks(Scan(cfg, a, i, w).events) && m.event.fault != Some(MissingArgument)
    ensures Lacks(Scan(cfg, a, i + m.past, m.left).events)
    ensures Scan(cfg, a, i, w).rest == Scan(cfg, a, i + m.past, m.left).rest
  {
  }

  lemma DiffersBegun(cfg: Config, a: seq<string>, i: nat, p: seq<string>, k: nat)
    requires i < |a| && k < |p| && p[k] == a[i] && !NonOption(a[i]) && a[i] != "--"
    requires Scan(cfg, p, k, Start(cfg, a[i])).events != Scan(cfg, a, i, Start(cfg, a[i])).events
    ensures Scan(cfg, p, k, "").events != Scan(cfg, a, i, "").events
  {
  }

  /** What goes on is lacking an argument although there are non-options. */
  ghost predicate Incomplete(cfg: Config, a: seq<string>, i: nat, w: string, p: seq<string>, k: nat, pre: seq<string>) {
    && Sorted(cfg, a, i, w, p, k, pre) && Position(p, k, w)
    && Lacks(Scan(cfg, a, i, w).events) && (pre != [] || Scan(cfg, a, i, w).rest != [])
  }

  lemma IncompleteEvent(cfg: Config, a: seq<string>, i: nat, w: string, p: seq<string>, k: nat, pre: seq<string>,
                        m: Move)
    requires Incomplete(cfg, a, i, w, p, k, pre) && w != "" && m == Step(cfg, a[i], w, NextOf(a, i))
    requires m.event.fault != Some(MissingArgument)
    ensures k + m.past <= |p| && Incomplete(cfg, a, i + m.past, m.left, p, k + m.past, pre)
    ensures m == Step(cfg, p[k], w, NextOf(p, k))
  {
    SortedStep(cfg, a, i, w, p, k, pre, m);
    LacksLater(cfg, a, i, w, m);
  }

  lemma IncompleteElement(cfg: Config, a: seq<string>, i: nat, p: seq<string>, k: nat, pre: seq<string>)
    requires Incomplete(cfg, a, i, "", p, k, pre)
    ensures i < |a|
    ensures NonOption(a[i]) ==> Incomplete(cfg, a, i + 1, "", p, k, pre + [a[i]])
    ensures NonOption(a[i]) ==> Scan(cfg, a, i, "").events == Scan(cfg, a, i + 1, "").events
    ensures !NonOption(a[i]) ==>
      a[i] != "--" && k < |p| && p[k] == a[i] && Incomplete(cfg, a, i, Start(cfg, a[i]), p, k, pre)
  {
    if NonOption(a[i]) {
      SortedNonOption(cfg, a, i, p, k, pre);
    } else {
      SortedOption(cfg, a, i, p, k, pre);
    }
  }

  /** The missing argument is found among the non-options. */
  lemma {:induction false} ScanDiffers(cfg: Config, a: seq<string>, i: nat, w: string, p: seq<string>, k: nat,
                                       pre: seq<string>)
    requires Incomplete(cfg, a, i, w, p, k, pre)
    ensures Scan(cfg, p, k, w).events != Scan(cfg, a, i, w).events
    decreases |a| - i, if w == "" then 1 else 0, |w|
  {
    if w == "" {
      IncompleteElement(cfg, a, i, p, k, pre);
      if NonOption(a[i]) {
        ScanDiffers(cfg, a, i + 1, "", p, k, pre + [a[i]]);
      } else {
        ScanDiffers(cfg, a, i, Start(cfg, a[i]), p, k, pre);
        DiffersBegun(cfg, a, i, p, k);
      }
    } else {
      var m := Step(cfg, a[i], w, NextOf(a, i));
      if m.event.fault == Some(MissingArgument) {
        DiffersMissing(cfg, a, i, w, p, k, pre);
      } else {
        IncompleteEvent(cfg, a, i, w, p, k, pre, m);
        ScanDiffers(cfg, a, i + m.past, m.left, p, k + m.past, pre);
        DiffersLater(cfg, a, i, w, p, k, m);
      }
    }
  }

  /** Scanning the permuted argv again gives the same events and leaves it alone, exactly unless
      the last option lacked its argument and there are non-options, whose first one it then
      takes. */
  lemma PermutedAgain(cfg: Config, a: seq<string>)
    requires a != []
    ensures var s := Scan(cfg, a, 1, "");
            (Scan(cfg, [a[0]] + s.taken + s.rest, 1, "") == s <==> !(Lacks(s.events) && s.rest != []))
  {
    var s := Scan(cfg, a, 1, "");
    var p := [a[0]] + s.taken + s.rest;
    assert p[1..] == s.taken + [] + s.rest;
    assert [] + s.rest == s.rest;
    if Lacks(s.events) && s.rest != [] {
      ScanDiffers(cfg, a, 1, "", p, 1, []);
    } else {
      ScanAgain(cfg, a, 1, "", p, 1, []);
    }
  }

  /** The argument of the last option is missing. */
  lemma MissingExample(cfg: Config, a: seq<string>)
    requires cfg == Config("a:", None, false) && a == ["p", "x", "-a"]
    ensures var s := Scan(cfg, a, 1, ""); s.taken == ["-a"] && s.rest == ["x"] && Lacks(s.events)
  {
    assert Declared("a:", 'a') == Required && "-a"[1..] == "a";
    StepMeans(cfg, "-a", "a", None);
    assert a[2..3] == ["-a"] && Scan(cfg, a, 3, "") == Scanned([], [], []);
    assert NonOption("x") && !NonOption("-a") && Scan(cfg, a, 2, "") == Scan(cfg, a, 2, "a");
  }

  /** The permuted arguments: the second scan takes the first non-option for the argument. */
  lemma PermutedExample(cfg: Config, p: seq<string>)
    requires cfg == Config("a:", None, false) && p == ["p", "-a", "x"]
    ensures Scan(cfg, p, 1, "") == Scanned([Event('a' as int, Some("x"), None, None, None, None)], ["-a", "x"], [])
  {
    assert Declared("a:", 'a') == Required && "-a"[1..] == "a";
    StepMeans(cfg, "-a", "a", Some("x"));
    assert p[1..3] == ["-a", "x"] && Scan(cfg, p, 3, "") == Scanned([], [], []);
    assert !NonOption("-a") && Scan(cfg, p, 1, "") == Scan(cfg, p, 1, "a");
  }
}
