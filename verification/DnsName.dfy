module DnsName {
  // Domain names in DNS messages as dnrd reads and writes them: length-prefixed labels, ended by
  // a zero byte or by a pointer into the message (sections 4.1.2 and 4.1.4 of RFC 1035).

  import opened Common

  type Label = seq<Byte>

  const Dot: Byte := 46
  const HeaderSize: nat := 12       // PACKET_DATABEGIN
  const MaxPointers: nat := 512     // UDP_MAXSIZE

  // ---------- Names ----------

  /** valid_char: every byte in tolerant mode, else letters, digits and the hyphen. */
  predicate ValidByte(tolerant: bool, b: Byte) {
    tolerant || 48 <= b <= 57 || 65 <= b <= 90 || 97 <= b <= 122 || b == 45
  }

  predicate ValidLabel(tolerant: bool, l: Label) {
    forall i :: 0 <= i < |l| ==> ValidByte(tolerant, l[i])
  }

  /** Labels a name can be made of. */
  predicate GoodLabels(tolerant: bool, labels: seq<Label>) {
    forall i :: 0 <= i < |labels| ==> 0 < |labels[i]| <= 63 && ValidLabel(tolerant, labels[i])
  }

  /** The wire form. */
  function Encoded(labels: seq<Label>): (r: seq<Byte>)
    requires forall i :: 0 <= i < |labels| ==> |labels[i]| <= 63
    ensures |r| > 0
  {
    if labels == [] then [0] else [|labels[0]|] + labels[0] + Encoded(labels[1..])
  }

  /** The text form with a dot after every label. */
  function Dotted(labels: seq<Label>): seq<Byte> {
    if labels == [] then [] else labels[0] + [Dot] + Dotted(labels[1..])
  }

  /** The text form: without the last dot. */
  function Text(labels: seq<Label>): (t: seq<Byte>)
    requires labels != []
  {
    if |labels| == 1 then labels[0] else labels[0] + [Dot] + Text(labels[1..])
  }

  lemma {:induction false} DottedIsText(labels: seq<Label>)
    requires labels != []
    ensures Dotted(labels) == Text(labels) + [Dot]
    ensures |Dotted(labels)| == |Text(labels)| + 1
  {
    if |labels| > 1 {
      DottedIsText(labels[1..]);
    } else {
      assert Dotted(labels[1..]) == [];
    }
  }

  lemma {:induction false} DottedConcat(a: seq<Label>, b: seq<Label>)
    ensures Dotted(a + b) == Dotted(a) + Dotted(b)
  {
    if a == [] {
      assert a + b == b;
    } else {
      assert (a + b)[1..] == a[1..] + b;
      DottedConcat(a[1..], b);
      assert Dotted(a + b) == a[0] + [Dot] + (Dotted(a[1..]) + Dotted(b));
    }
  }

  lemma {:induction false} EncodedSize(labels: seq<Label>)
    requires forall i :: 0 <= i < |labels| ==> |labels[i]| <= 63
    ensures |Encoded(labels)| == |Dotted(labels)| + 1
  {
    if labels != [] {
      EncodedSize(labels[1..]);
    }
  }

  // ---------- What a message says at a place ----------

  /** Where a pointer of these two bytes points. */
  function Target(a: Byte, b: Byte): nat {
    (a as int) % 64 * 256 + b
  }

  datatype Reading = Bad | Name(labels: seq<Label>, next: nat)

  /** The name at i of a message, following at most hops pointers; next is behind it, or behind
      its first pointer. */
  function ReadName(tolerant: bool, msg: seq<Byte>, i: nat, hops: nat): Reading
    decreases hops, |msg| - i
  {
    if i >= |msg| then Bad
    else if msg[i] == 0 then Name([], i + 1)
    else if i + 1 >= |msg| then Bad
    else if msg[i] >= 192 then
      var target := Target(msg[i], msg[i + 1]);
      if hops == 0 || target >= |msg| then Bad else
      var r := ReadName(tolerant, msg, target, hops - 1);
      if r.Bad? then Bad else Name(r.labels, i + 2)
    else if msg[i] < 64 then
      var e := i + 1 + msg[i];
      if e >= |msg| || !ValidLabel(tolerant, msg[i + 1..e]) then Bad else
      var r := ReadName(tolerant, msg, e, hops);
      if r.Bad? then Bad else Name([msg[i + 1..e]] + r.labels, r.next)
    else Bad
  }

  /** Where an encoded name stands, it is read, whatever surrounds it. */
  lemma {:induction false} ReadEncoded(tolerant: bool, msg: seq<Byte>, i: nat, labels: seq<Label>, hops: nat)
    requires GoodLabels(tolerant, labels) && i + |Encoded(labels)| <= |msg|
      && msg[i..i + |Encoded(labels)|] == Encoded(labels)
    ensures ReadName(tolerant, msg, i, hops) == Name(labels, i + |Encoded(labels)|)
    decreases |labels|
  {
    var n := |Encoded(labels)|;
    assert msg[i] == msg[i..i + n][0];
    if labels != [] {
      var l, rest := labels[0], labels[1..];
      var e := i + 1 + |l|;
      SliceParts(msg, i, [|l|], l, Encoded(rest));
      assert msg[i + 1..e] == l;
      ReadEncoded(tolerant, msg, e, rest, hops);
      assert [l] + rest == labels;
    }
  }

  lemma SliceParts(msg: seq<Byte>, i: nat, a: seq<Byte>, b: seq<Byte>, c: seq<Byte>)
    requires i + |a| + |b| + |c| <= |msg| && msg[i..i + |a| + |b| + |c|] == a + b + c
    ensures msg[i..i + |a|] == a && msg[i + |a|..i + |a| + |b|] == b && msg[i + |a| + |b|..i + |a| + |b| + |c|] == c
  {
    var s := a + b + c;
    assert forall k :: 0 <= k < |s| ==> msg[i + k] == s[k] by {
      forall k | 0 <= k < |s|
        ensures msg[i + k] == s[k]
      {
        assert msg[i..i + |a| + |b| + |c|][k] == s[k];
      }
    }
    SliceAt(msg, i, s, 0, a);
    SliceAt(msg, i, s, |a|, b);
    SliceAt(msg, i, s, |a| + |b|, c);
  }

  lemma SliceAt(msg: seq<Byte>, i: nat, s: seq<Byte>, k: nat, x: seq<Byte>)
    requires i + |s| <= |msg| && k + |x| <= |s| && s[k..k + |x|] == x
    requires forall j :: 0 <= j < |s| ==> msg[i + j] == s[j]
    ensures msg[i + k..i + k + |x|] == x
  {
  }

  /** Conversely, a name read without a pointer is spelled out there. */
  lemma {:induction false} ReadIsEncoded(tolerant: bool, msg: seq<Byte>, i: nat)
    requires ReadName(tolerant, msg, i, 0).Name?
    ensures var r := ReadName(tolerant, msg, i, 0);
            GoodLabels(tolerant, r.labels) && i + |Encoded(r.labels)| == r.next <= |msg|
              && msg[i..r.next] == Encoded(r.labels)
    decreases |msg| - i
  {
    var r := ReadName(tolerant, msg, i, 0);
    if msg[i] == 0 {
      assert msg[i..i + 1][0] == msg[i];
    } else {
      var e := i + 1 + msg[i];
      ReadIsEncoded(tolerant, msg, e);
      var r' := ReadName(tolerant, msg, e, 0);
      assert r.labels[1..] == r'.labels;
      CutLabel(msg, i, e, r.next);
    }
  }

  lemma CutLabel(msg: seq<Byte>, i: nat, e: nat, n: nat)
    requires i < e <= n <= |msg|
    ensures msg[i..n] == [msg[i]] + msg[i + 1..e] + msg[e..n]
  {
  }

  /** A pointer is read as the name it points to. */
  lemma ReadPointer(tolerant: bool, msg: seq<Byte>, i: nat, target: nat, hops: nat)
    requires i + 1 < |msg| && target < 64 * 256 && target < |msg| && hops > 0
    requires msg[i] == 192 + target / 256 && msg[i + 1] == target % 256
    ensures var r := ReadName(tolerant, msg, target, hops - 1);
            ReadName(tolerant, msg, i, hops) == if r.Bad? then Bad else Name(r.labels, i + 2)
  {
  }

  // ---------- get_objname ----------

  /** Underflow: the code writes in front of the buffer, which it does for the root name. */
  datatype Outcome = Failed | Underflow | Found(next: nat, len: nat)

  /** The pointers a name may use. */
  function Hops(msg: seq<Byte>): nat {
    if |msg| == 0 then 0 else if |msg| - 1 < MaxPointers then |msg| - 1 else MaxPointers
  }

  /** What get_objname must answer. */
  ghost predicate Answers(tolerant: bool, msg: seq<Byte>, index: int, size: nat, out: Outcome) {
    if index < HeaderSize then out.Failed? else
    var r := ReadName(tolerant, msg, index, Hops(msg));
    if r.Bad? then out.Failed?
    else if r.labels == [] then out.Underflow?
    else if |Dotted(r.labels)| >= size then out.Failed?
    else out == Found(r.next, |Text(r.labels)|)
  }

  /** The write in front of the buffer happens exactly for the root name, spelled out or pointed
      to; a zero right behind the header is one. */
  lemma RootUnderflows(tolerant: bool, msg: seq<Byte>, index: int, size: nat, out: Outcome)
    requires Answers(tolerant, msg, index, size, out)
    ensures out.Underflow? <==> index >= HeaderSize && ReadName(tolerant, msg, index, Hops(msg)).Name?
                                && ReadName(tolerant, msg, index, Hops(msg)).labels == []
    ensures index == HeaderSize < |msg| && msg[HeaderSize] == 0 ==> out.Underflow?
  {
  }

  ghost predicate OpenReading(i: nat, hops: nat, u: nat) {
    true
  }

  /** The name seen so far, done, and the one still to come from (i, hops) make up whole. It is
      stated under a quantifier that only ContinuesMeans opens, so that the loop need not unfold
      the reading. */
  ghost predicate Continues(tolerant: bool, msg: seq<Byte>, whole: Reading, done: seq<Label>, i: nat, hops: nat,
                            compressed: nat) {
    forall u: nat {:trigger OpenReading(i, hops, u)} :: OpenReading(i, hops, u) ==>
      var r := ReadName(tolerant, msg, i, hops);
      && (whole.Bad? <==> r.Bad?)
      && (whole.Name? ==> whole == Name(done + r.labels, if compressed > 0 then compressed else r.next))
  }

  lemma ContinuesMeans(tolerant: bool, msg: seq<Byte>, whole: Reading, done: seq<Label>, i: nat, hops: nat,
                       compressed: nat)
    requires Continues(tolerant, msg, whole, done, i, hops, compressed)
    ensures var r := ReadName(tolerant, msg, i, hops);
            && (whole.Bad? <==> r.Bad?)
            && (whole.Name? ==> whole == Name(done + r.labels, if compressed > 0 then compressed else r.next))
  {
    assert OpenReading(i, hops, 0);
  }

  lemma ContinuesStart(tolerant: bool, msg: seq<Byte>, i: nat, hops: nat)
    ensures Continues(tolerant, msg, ReadName(tolerant, msg, i, hops), [], i, hops, 0)
  {
  }

  lemma ContinuesEnd(tolerant: bool, msg: seq<Byte>, whole: Reading, done: seq<Label>, i: nat, hops: nat,
                     compressed: nat)
    requires i < |msg| && Continues(tolerant, msg, whole, done, i, hops, compressed)
    ensures msg[i] == 0 ==> whole == Name(done, if compressed > 0 then compressed else i + 1)
    ensures msg[i] != 0 && i + 1 >= |msg| ==> whole.Bad?
    ensures 64 <= msg[i] < 192 ==> whole.Bad?
  {
    ContinuesMeans(tolerant, msg, whole, done, i, hops, compressed);
    assert done + [] == done;
  }

  lemma ContinuesPointer(tolerant: bool, msg: seq<Byte>, whole: Reading, done: seq<Label>, i: nat, hops: nat,
                         compressed: nat, target: nat)
    requires i + 1 < |msg| && msg[i] >= 192 && target == Target(msg[i], msg[i + 1])
    requires Continues(tolerant, msg, whole, done, i, hops, compressed)
    ensures hops == 0 || target >= |msg| ==> whole.Bad?
    ensures hops > 0 && target < |msg| ==>
      Continues(tolerant, msg, whole, done, target, hops - 1, if compressed > 0 then compressed else i + 2)
  {
    ContinuesMeans(tolerant, msg, whole, done, i, hops, compressed);
  }

  lemma ContinuesLabel(tolerant: bool, msg: seq<Byte>, whole: Reading, done: seq<Label>, i: nat, hops: nat,
                       compressed: nat, e: nat)
    requires i + 1 < |msg| && 0 < msg[i] < 64 && e == i + 1 + msg[i]
    requires Continues(tolerant, msg, whole, done, i, hops, compressed)
    ensures e >= |msg| || !ValidLabel(tolerant, msg[i + 1..e]) ==> whole.Bad?
    ensures e < |msg| && ValidLabel(tolerant, msg[i + 1..e]) ==>
      Continues(tolerant, msg, whole, done + [msg[i + 1..e]], e, hops, compressed)
    ensures e < |msg| && whole.Name? ==>
      whole.labels != [] && |Dotted(whole.labels)| >= |Dotted(done)| + |msg[i + 1..e]| + 1
  {
    ContinuesMeans(tolerant, msg, whole, done, i, hops, compressed);
    if e < |msg| && ValidLabel(tolerant, msg[i + 1..e]) {
      var l, r := msg[i + 1..e], ReadName(tolerant, msg, e, hops);
      if r.Name? {
        assert done + ([l] + r.labels) == done + [l] + r.labels;
        DottedConcat(done, [l] + r.labels);
        assert ([l] + r.labels)[1..] == r.labels;
      }
    }
  }

  /** The inner loop: the label of c bytes at i goes to dest at j if its bytes are valid. */
  method CopyLabel(tolerant: bool, msg: seq<Byte>, i: nat, c: nat, dest: array<Byte>, j: nat) returns (ok: bool)
    requires i + c <= |msg| && j + c <= dest.Length
    modifies dest
    ensures ok <==> ValidLabel(tolerant, msg[i..i + c])
    ensures dest[..j] == old(dest[..j]) && (ok ==> dest[j..j + c] == msg[i..i + c])
  {
    ghost var l := msg[i..i + c];
    for k := 0 to c
      invariant forall x :: 0 <= x < k ==> ValidByte(tolerant, l[x])
      invariant dest[j..j + k] == l[..k] && dest[..j] == old(dest[..j])
    {
      assert l[k] == msg[i + k];
      if !ValidByte(tolerant, msg[i + k]) {
        return false;
      }
      dest[j + k] := msg[i + k];
      assert dest[j..j + k + 1] == dest[j..j + k] + [l[k]];
    }
    ok := true;
  }

  /** The branch for a label of c bytes at i: the text of done, which dest holds, grows by it. */
  method TakeLabel(tolerant: bool, msg: seq<Byte>, i: nat, c: nat, dest: array<Byte>, j: nat, ghost done: seq<Label>)
    returns (ok: bool)
    requires i + c <= |msg| && j == |Dotted(done)| && j + c < dest.Length && dest[..j] == Dotted(done)
    modifies dest
    ensures ok <==> ValidLabel(tolerant, msg[i..i + c])
    ensures ok ==> dest[..j + c + 1] == Dotted(done + [msg[i..i + c]])
  {
    ok := CopyLabel(tolerant, msg, i, c, dest, j);
    if ok {
      ghost var l := msg[i..i + c];
      DottedConcat(done, [l]);
      assert Dotted([l]) == l + [Dot];
      dest[j + c] := Dot;
      assert dest[..j + c + 1] == dest[..j] + dest[j..j + c] + [Dot];
    }
  }

  /** The outer loop of get_objname. It fails exactly when the name is bad or its text too long. */
  method Walk(tolerant: bool, msg: seq<Byte>, index: nat, dest: array<Byte>, ghost whole: Reading)
    returns (ok: bool, j: nat, next: nat, ghost done: seq<Label>)
    requires index < |msg| && Continues(tolerant, msg, whole, [], index, Hops(msg), 0)
    modifies dest
    ensures ok ==> whole == Name(done, next) && j == |Dotted(done)| && (j == 0 || j < dest.Length)
    ensures ok ==> j <= dest.Length && dest[..j] == Dotted(done)
    ensures !ok && whole.Name? ==> whole.labels != [] && |Dotted(whole.labels)| >= dest.Length
  {
    ghost var hops := Hops(msg);
    var i: nat, depth: nat, compressed: nat := index, 0, 0;
    j, done, next := 0, [], 0;
    while msg[i] != 0
      invariant i < |msg| && depth <= Hops(msg) && hops == Hops(msg) - depth
      invariant j == |Dotted(done)| && j <= dest.Length && (j == 0 || j < dest.Length)
      invariant dest[..j] == Dotted(done)
      invariant Continues(tolerant, msg, whole, done, i, hops, compressed)
      decreases hops, |msg| - i
    {
      var c: int := msg[i];
      ContinuesEnd(tolerant, msg, whole, done, i, hops, compressed);
      if i + 1 >= |msg| {
        ok := false;
        return;
      }
      if c >= 192 {
        var target := Target(msg[i], msg[i + 1]);
        ContinuesPointer(tolerant, msg, whole, done, i, hops, compressed, target);
        depth := depth + 1;
        if depth >= |msg| || depth > MaxPointers {
          ok := false;
          return;
        }
        if compressed == 0 {
          compressed := i + 2;
        }
        if target >= |msg| {
          ok := false;
          return;
        }
        i, hops := target, hops - 1;
      } else if c < 64 {
        ContinuesLabel(tolerant, msg, whole, done, i, hops, compressed, i + 1 + c);
        if j + c + 1 >= dest.Length || i + 1 + c >= |msg| {
          ok := false;
          return;
        }
        ok := TakeLabel(tolerant, msg, i + 1, c, dest, j, done);
        if !ok {
          return;
        }
        done := done + [msg[i + 1..i + 1 + c]];
        i, j := i + 1 + c, j + c + 1;
      } else {
        ok := false;
        return;
      }
    }
    ContinuesEnd(tolerant, msg, whole, done, i, hops, compressed);
    ok, next := true, if compressed > 0 then compressed else i + 1;
  }

  lemma NoText(labels: seq<Label>)
    ensures |Dotted(labels)| == 0 <==> labels == []
  {
  }

  /** get_objname: the answer is that of ReadName, and the text goes to dest if it fits. */
  method GetObjname(tolerant: bool, msg: seq<Byte>, index: int, dest: array<Byte>) returns (out: Outcome)
    modifies dest
    ensures Answers(tolerant, msg, index, dest.Length, out)
    ensures out.Found? ==> out.len < dest.Length && dest[out.len] == 0
                           && dest[..out.len] == Text(ReadName(tolerant, msg, index, Hops(msg)).labels)
  {
    if index < HeaderSize || index >= |msg| {
      return Failed;
    }
    ContinuesStart(tolerant, msg, index, Hops(msg));
    var ok, j, next; ghost var done;
    ok, j, next, done := Walk(tolerant, msg, index, dest, ReadName(tolerant, msg, index, Hops(msg)));
    if !ok {
      return Failed;
    }
    NoText(done);
    if j == 0 {
      return Underflow;
    }
    DottedIsText(done);
    j := j - 1;
    assert dest[..j] == dest[..j + 1][..j];
    dest[j] := 0;
    return Found(next, j);
  }
}
