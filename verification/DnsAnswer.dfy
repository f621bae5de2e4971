module DnsAnswer {
  // The answers of dnrd's built-in master, as it assembles them behind a moving cursor in one
  // packet buffer, and the readers of questions and records they are meant for.

  import opened Common
  import opened DnsName

  // ---------- Numbers ----------

  /** compile_int, and the reading of a short. */
  function Word(n: int): (r: seq<Byte>)
    ensures |r| == 2
  {
    [n / 256 % 256, n % 256]
  }

  function WordAt(msg: seq<Byte>, i: nat): int
    requires i + 2 <= |msg|
  {
    (msg[i] as int) * 256 + msg[i + 1]
  }

  /** compile_long, and the reading of a long. */
  function Long(n: int): (r: seq<Byte>)
    ensures |r| == 4
  {
    Word(n / 65536) + Word(n)
  }

  function LongAt(msg: seq<Byte>, i: nat): int
    requires i + 4 <= |msg|
  {
    WordAt(msg, i) * 65536 + WordAt(msg, i + 2)
  }

  lemma WordIsRead(msg: seq<Byte>, i: nat, n: int)
    requires i + 2 <= |msg| && msg[i..i + 2] == Word(n) && 0 <= n < 65536
    ensures WordAt(msg, i) == n
  {
  }

  // ---------- Names from text ----------

  /** The end of the label that begins at k. */
  function LabelEnd(name: seq<Byte>, k: nat): (e: nat)
    requires k <= |name|
    ensures k <= e <= |name|
    decreases |name| - k
  {
    if k == |name| || name[k] == Dot then k else LabelEnd(name, k + 1)
  }

  /** compile_name from position k of the text on. An empty label ends the name. */
  function Compiled(name: seq<Byte>, k: nat): (r: seq<Byte>)
    requires k <= |name|
    ensures |r| <= |name| - k + 2
    decreases |name| - k
  {
    var e := LabelEnd(name, k);
    if e == k then [0]
    else [(e - k) % 64] + name[k..e] + Compiled(name, if e < |name| then e + 1 else e)
  }

  /** Labels that can be told apart in a text. */
  predicate TextLabels(labels: seq<Label>) {
    forall i :: 0 <= i < |labels| ==> 0 < |labels[i]| <= 63 && Dot !in labels[i] && 0 !in labels[i]
  }

  lemma {:induction false} LabelEndAt(name: seq<Byte>, k: nat, e: nat)
    requires k <= e <= |name| && (e == |name| || name[e] == Dot) && forall i :: k <= i < e ==> name[i] != Dot
    ensures LabelEnd(name, k) == e
    decreases e - k
  {
    if k < e {
      LabelEndAt(name, k + 1, e);
    }
  }

  /** A label in the middle of a text, and the last one. */
  lemma {:induction false} CompiledLabel(name: seq<Byte>, pre: seq<Byte>, l: Label, post: seq<Byte>)
    requires 0 < |l| <= 63 && Dot !in l
    ensures name == pre + l + [Dot] + post ==> Compiled(name, |pre|) == [|l|] + l + Compiled(name, |pre| + |l| + 1)
    ensures name == pre + l ==> Compiled(name, |pre|) == [|l|] + l + [0]
  {
    var k, e := |pre|, |pre| + |l|;
    if name == pre + l + [Dot] + post {
      assert pre + l + [Dot] + post == pre + l + ([Dot] + post);
      MiddlePart(name, pre, l, [Dot] + post);
      LabelEndAt(name, k, e);
    }
    if name == pre + l {
      assert pre + l == pre + l + [];
      MiddlePart(name, pre, l, []);
      LabelEndAt(name, k, e);
      assert LabelEnd(name, e) == e;
    }
  }

  lemma MiddlePart(name: seq<Byte>, pre: seq<Byte>, l: Label, post: seq<Byte>)
    requires name == pre + l + post
    ensures name[|pre|..|pre| + |l|] == l && (post != [] ==> name[|pre| + |l|] == post[0])
    ensures forall i :: |pre| <= i < |pre| + |l| ==> name[i] == l[i - |pre|]
  {
  }

  lemma EncodedStep(labels: seq<Label>)
    requires TextLabels(labels) && labels != []
    ensures TextLabels(labels[1..]) && Encoded(labels) == [|labels[0]|] + labels[0] + Encoded(labels[1..])
    ensures |labels| == 1 ==> Encoded(labels) == [|labels[0]|] + labels[0] + [0] && Text(labels) == labels[0]
  {
  }

  /** Compiling the text of a name gives its wire form. */
  lemma {:induction false} CompiledIsEncoded(name: seq<Byte>, pre: seq<Byte>, labels: seq<Label>)
    requires TextLabels(labels) && labels != [] && name == pre + Text(labels)
    ensures Compiled(name, |pre|) == Encoded(labels)
    decreases |labels|, 0
  {
    EncodedStep(labels);
    if |labels| == 1 {
      CompiledLabel(name, pre, labels[0], []);
    } else {
      TextStep(pre, labels);
      CompiledMore(name, pre, labels[0], labels[1..]);
    }
  }

  lemma {:induction false} CompiledMore(name: seq<Byte>, pre: seq<Byte>, l: Label, rest: seq<Label>)
    requires 0 < |l| <= 63 && Dot !in l && TextLabels(rest) && rest != [] && name == pre + l + [Dot] + Text(rest)
    ensures Compiled(name, |pre|) == [|l|] + l + Encoded(rest)
    decreases |rest|, 1
  {
    CompiledLabel(name, pre, l, Text(rest));
    CompiledIsEncoded(name, pre + l + [Dot], rest);
  }

  lemma TextStep(pre: seq<Byte>, labels: seq<Label>)
    requires |labels| > 1
    ensures pre + Text(labels) == pre + labels[0] + [Dot] + Text(labels[1..])
  {
  }

  // ---------- The message ----------

  const DefaultTtl: int := 3600
  const ClassInet: int := 1
  const Response: int := 0x8000      // QR set, all other flags clear

  /** The header behind the id: a response with one question and one answer. */
  function Counts(): (r: seq<Byte>)
    ensures |r| == 10
  {
    Word(Response) + (Word(1) + (Word(1) + (Word(0) + Word(0))))
  }

  function Question(name: seq<Byte>, qtype: int, qclass: int): seq<Byte> {
    Compiled(name, 0) + (Word(qtype) + Word(qclass))
  }

  /** An answer for the name in the question, by a pointer to it. */
  function Answer(rtype: int, rdata: seq<Byte>): seq<Byte> {
    [192, HeaderSize] + (Word(rtype) + (Word(ClassInet) + (Long(DefaultTtl) + (Word(|rdata|) + rdata))))
  }

  /** id is the first two bytes, which the master leaves as the client sent them. */
  function Message(id: seq<Byte>, name: seq<Byte>, qtype: int, qclass: int, rtype: int,
                   rdata: seq<Byte>): seq<Byte>
  {
    id + (Counts() + (Question(name, qtype, qclass) + Answer(rtype, rdata)))
  }

  /** part stands in msg at i. */
  predicate Holds(msg: seq<Byte>, i: nat, part: seq<Byte>) {
    i + |part| <= |msg| && msg[i..i + |part|] == part
  }

  lemma HoldsSplit(msg: seq<Byte>, i: nat, a: seq<Byte>, b: seq<Byte>)
    requires Holds(msg, i, a + b)
    ensures Holds(msg, i, a) && Holds(msg, i + |a|, b)
  {
    var s := a + b;
    assert forall k :: 0 <= k < |s| ==> msg[i + k] == s[k] by {
      forall k | 0 <= k < |s|
        ensures msg[i + k] == s[k]
      {
        assert msg[i..i + |s|][k] == s[k];
      }
    }
    SliceAt(msg, i, s, 0, a);
    SliceAt(msg, i, s, |a|, b);
  }

  // ---------- Reading ----------

  datatype Parsed<T> = Error | Undefined | Ok(value: T)

  datatype Query = Query(flags: int, name: seq<Byte>, qtype: int, qclass: int)

  /** A record, and the place behind what was read of it. */
  datatype Record = Record(name: seq<Byte>, rtype: int, class_: int, ttl: int, data: seq<Byte>, next: nat)

  const NameSize: nat := 256
  const DataSize: nat := 252         // sizeof(data) - 4

  /** A C string ends at its first zero. */
  function CString(s: seq<Byte>): seq<Byte> {
    if s == [] || s[0] == 0 then [] else [s[0]] + CString(s[1..])
  }

  function LowerByte(b: Byte): Byte {
    if 65 <= b <= 90 then b + 32 else b
  }

  function Lower(s: seq<Byte>): (r: seq<Byte>)
    ensures |r| == |s|
  {
    seq(|s|, i requires 0 <= i < |s| => LowerByte(s[i]))
  }

  function StripDot(s: seq<Byte>): seq<Byte> {
    if s != [] && s[|s| - 1] == Dot then s[..|s| - 1] else s
  }

  /** parse_query, once the name is read. */
  function QueryAt(msg: seq<Byte>, r: Reading): Parsed<Query>
    requires |msg| >= HeaderSize
  {
    if WordAt(msg, 4) == 0 || r.Bad? then Error
    else if r.labels == [] then Undefined
    else if |Dotted(r.labels)| >= NameSize || r.next + 4 > |msg| then Error
    else Ok(Query(WordAt(msg, 2), Lower(StripDot(CString(Text(r.labels)))), WordAt(msg, r.next),
      WordAt(msg, r.next + 2)))
  }

  function ParsedQuery(tolerant: bool, msg: seq<Byte>): Parsed<Query>
    requires |msg| >= HeaderSize
  {
    QueryAt(msg, ReadName(tolerant, msg, HeaderSize, Hops(msg)))
  }

  /** read_record on an answer, once the name is read. Data beyond DataSize bytes are dropped and
      not passed over. */
  function RecordAt(msg: seq<Byte>, r: Reading): Parsed<Record> {
    if r.Bad? then Error
    else if r.labels == [] then Undefined
    else if |Dotted(r.labels)| >= NameSize || r.next + 10 > |msg| then Error
    else
      var i, len := r.next + 10, WordAt(msg, r.next + 8);
      if i + len > |msg| then Error else
      var kept := if len > DataSize then DataSize else len;
      Ok(Record(Text(r.labels), WordAt(msg, r.next), WordAt(msg, r.next + 2), LongAt(msg, r.next + 4),
        msg[i..i + kept], i + kept))
  }

  function ReadRecord(tolerant: bool, msg: seq<Byte>, index: nat): Parsed<Record> {
    if index < HeaderSize then Error else RecordAt(msg, ReadName(tolerant, msg, index, Hops(msg)))
  }

  lemma {:induction false} CStringWhole(s: seq<Byte>)
    requires 0 !in s
    ensures CString(s) == s
  {
    if s != [] {
      CStringWhole(s[1..]);
    }
  }

  /** The text of labels without zeros has none, and does not end with a dot. */
  lemma {:induction false} TextPlain(labels: seq<Label>)
    requires TextLabels(labels) && labels != []
    ensures 0 !in Text(labels) && Text(labels) != [] && Text(labels)[|Text(labels)| - 1] != Dot
    decreases |labels|
  {
    if |labels| > 1 {
      TextPlain(labels[1..]);
    } else {
      assert labels[0][|labels[0]| - 1] in labels[0];
    }
  }

  // ---------- Round trip ----------

  /** The names the round trip is claimed for: labels of 1 to 63 plain bytes, of at most 254 bytes
      with their dots. */
  predicate PlainName(tolerant: bool, labels: seq<Label>) {
    labels != [] && TextLabels(labels) && GoodLabels(tolerant, labels) && |Text(labels)| <= 254
  }

  lemma MessageParts(msg: seq<Byte>, id: seq<Byte>, name: seq<Byte>, qtype: int, qclass: int, rtype: int,
                     rdata: seq<Byte>)
    requires msg == Message(id, name, qtype, qclass, rtype, rdata) && |id| == 2
    ensures |msg| == HeaderSize + |Question(name, qtype, qclass)| + |Answer(rtype, rdata)|
    ensures Holds(msg, 2, Counts()) && Holds(msg, HeaderSize, Question(name, qtype, qclass))
    ensures Holds(msg, HeaderSize + |Question(name, qtype, qclass)|, Answer(rtype, rdata))
  {
    var q, a := Question(name, qtype, qclass), Answer(rtype, rdata);
    assert |Counts()| == 10 && Holds(msg, 0, id + (Counts() + (q + a)));
    HoldsSplit(msg, 0, id, Counts() + (q + a));
    HoldsSplit(msg, 2, Counts(), q + a);
    HoldsSplit(msg, HeaderSize, q, a);
  }

  lemma QuestionParts(msg: seq<Byte>, i: nat, name: seq<Byte>, qtype: int, qclass: int)
    requires Holds(msg, i, Question(name, qtype, qclass)) && 0 <= qtype < 65536 && 0 <= qclass < 65536
    ensures var n := |Compiled(name, 0)|;
            && |Question(name, qtype, qclass)| == n + 4 && i + n + 4 <= |msg| && Holds(msg, i, Compiled(name, 0))
            && WordAt(msg, i + n) == qtype && WordAt(msg, i + n + 2) == qclass
  {
    var n := |Compiled(name, 0)|;
    HoldsSplit(msg, i, Compiled(name, 0), Word(qtype) + Word(qclass));
    HoldsSplit(msg, i + n, Word(qtype), Word(qclass));
    WordIsRead(msg, i + n, qtype);
    WordIsRead(msg, i + n + 2, qclass);
  }

  lemma AnswerParts(msg: seq<Byte>, i: nat, rtype: int, rdata: seq<Byte>)
    requires Holds(msg, i, Answer(rtype, rdata)) && 0 <= rtype < 65536 && |rdata| < 65536
    ensures |Answer(rtype, rdata)| == 12 + |rdata| && i + 12 + |rdata| <= |msg| && msg[i] == 192
      && msg[i + 1] == HeaderSize
    ensures WordAt(msg, i + 2) == rtype && WordAt(msg, i + 4) == ClassInet && LongAt(msg, i + 6) == DefaultTtl
    ensures WordAt(msg, i + 10) == |rdata| && Holds(msg, i + 12, rdata)
  {
    var w, c, t, n := Word(rtype), Word(ClassInet), Long(DefaultTtl), Word(|rdata|);
    HoldsSplit(msg, i, [192, HeaderSize], w + (c + (t + (n + rdata))));
    HoldsSplit(msg, i + 2, w, c + (t + (n + rdata)));
    HoldsSplit(msg, i + 4, c, t + (n + rdata));
    HoldsSplit(msg, i + 6, t, n + rdata);
    HoldsSplit(msg, i + 10, n, rdata);
    assert msg[i] == msg[i..i + 2][0] && msg[i + 1] == msg[i..i + 2][1];
    WordIsRead(msg, i + 2, rtype);
    WordIsRead(msg, i + 4, ClassInet);
    TtlIsRead(msg, i + 6);
    WordIsRead(msg, i + 10, |rdata|);
  }

  lemma TtlIsRead(msg: seq<Byte>, i: nat)
    requires Holds(msg, i, Long(DefaultTtl))
    ensures LongAt(msg, i) == DefaultTtl
  {
    var high, low := DefaultTtl / 65536, DefaultTtl % 65536;
    assert Word(DefaultTtl) == Word(low);
    HoldsSplit(msg, i, Word(high), Word(low));
    WordIsRead(msg, i, high);
    WordIsRead(msg, i + 2, low);
  }

  lemma CountsRead(msg: seq<Byte>)
    requires Holds(msg, 2, Counts())
    ensures WordAt(msg, 2) == Response && WordAt(msg, 4) == 1 && WordAt(msg, 6) == 1
  {
  }

  lemma {:induction false} PlainCompiled(tolerant: bool, labels: seq<Label>)
    requires PlainName(tolerant, labels)
    ensures Compiled(Text(labels), 0) == Encoded(labels) && |Encoded(labels)| == |Text(labels)| + 2
    ensures |Dotted(labels)| < NameSize
  {
    assert [] + Text(labels) == Text(labels);
    CompiledIsEncoded(Text(labels), [], labels);
    EncodedSize(labels);
    DottedIsText(labels);
  }

  /** The name of the question is read at the head of the message and through the pointer of the
      answer. */
  lemma {:induction false} NameRead(tolerant: bool, msg: seq<Byte>, labels: seq<Label>, i: nat)
    requires PlainName(tolerant, labels) && Holds(msg, HeaderSize, Compiled(Text(labels), 0))
    requires HeaderSize < i && i + 1 < |msg| && msg[i] == 192 && msg[i + 1] == HeaderSize
    ensures |Compiled(Text(labels), 0)| == |Text(labels)| + 2 && |Dotted(labels)| < NameSize
    ensures ReadName(tolerant, msg, HeaderSize, Hops(msg)) == Name(labels, HeaderSize + |Text(labels)| + 2)
    ensures ReadName(tolerant, msg, i, Hops(msg)) == Name(labels, i + 2)
  {
    PlainCompiled(tolerant, labels);
    ReadEncoded(tolerant, msg, HeaderSize, labels, Hops(msg));
    ReadThrough(tolerant, msg, i, HeaderSize, labels, Hops(msg));
  }

  lemma {:induction false} ReadThrough(tolerant: bool, msg: seq<Byte>, i: nat, target: nat, labels: seq<Label>,
                                       hops: nat)
    requires i + 1 < |msg| && target < 256 && hops > 0 && msg[i] == 192 && msg[i + 1] == target
    requires GoodLabels(tolerant, labels) && Holds(msg, target, Encoded(labels)) && target < |msg|
    ensures ReadName(tolerant, msg, i, hops) == Name(labels, i + 2)
  {
    ReadEncoded(tolerant, msg, target, labels, hops - 1);
    ReadPointer(tolerant, msg, i, target, hops);
  }

  /** The readers take a message apart into this question and this record. */
  predicate ReadBack(tolerant: bool, msg: seq<Byte>, name: seq<Byte>, qtype: int, qclass: int, rtype: int,
                     rdata: seq<Byte>)
    requires HeaderSize + |rdata| <= |msg|
  {
    var kept := if |rdata| > DataSize then DataSize else |rdata|;
    var next := |msg| - |rdata| + kept;
    && ParsedQuery(tolerant, msg) == Ok(Query(Response, Lower(name), qtype, qclass))
    && ReadRecord(tolerant, msg, HeaderSize + |name| + 6)
       == Ok(Record(name, rtype, ClassInet, DefaultTtl, rdata[..kept], next))
    && (rdata[..kept] == rdata && next == |msg| <==> |rdata| <= DataSize)
  }

  /** What the master assembles, the readers take apart again: the question in lower case, and an
      answer that repeats its name and carries the type, the time to live and the data, which are
      complete and at the end of the message exactly if they are no longer than DataSize. */
  lemma {:induction false} RoundTrip(tolerant: bool, id: seq<Byte>, labels: seq<Label>, qtype: int, qclass: int,
                                     rtype: int,
                  rdata: seq<Byte>)
    requires |id| == 2 && PlainName(tolerant, labels) && 0 <= qtype < 65536 && 0 <= qclass < 65536 && 0 <= rtype < 65536
    requires |rdata| < 65536
    ensures var msg := Message(id, Text(labels), qtype, qclass, rtype, rdata);
            && HeaderSize + |rdata| <= |msg| && ReadBack(tolerant, msg, Text(labels), qtype, qclass, rtype, rdata)
  {
    var name := Text(labels);
    var msg := Message(id, name, qtype, qclass, rtype, rdata);
    MessageParts(msg, id, name, qtype, qclass, rtype, rdata);
    QuestionParts(msg, HeaderSize, name, qtype, qclass);
    var i := HeaderSize + |Question(name, qtype, qclass)|;
    AnswerParts(msg, i, rtype, rdata);
    NameRead(tolerant, msg, labels, i);
    QueryRead(msg, labels, qtype, qclass);
    RecordRead(msg, i, labels, rtype, rdata);
  }

  lemma QueryRead(msg: seq<Byte>, labels: seq<Label>, qtype: int, qclass: int)
    requires TextLabels(labels) && labels != [] && Holds(msg, 2, Counts()) && |Dotted(labels)| < NameSize
    requires HeaderSize + |Text(labels)| + 6 <= |msg|
    requires WordAt(msg, HeaderSize + |Text(labels)| + 2) == qtype
      && WordAt(msg, HeaderSize + |Text(labels)| + 4) == qclass
    ensures QueryAt(msg, Name(labels, HeaderSize + |Text(labels)| + 2))
      == Ok(Query(Response, Lower(Text(labels)), qtype, qclass))
  {
    CountsRead(msg);
    TextPlain(labels);
    CStringWhole(Text(labels));
  }

  lemma RecordRead(msg: seq<Byte>, i: nat, labels: seq<Label>, rtype: int, rdata: seq<Byte>)
    requires labels != [] && |Dotted(labels)| < NameSize
    requires Holds(msg, i, Answer(rtype, rdata)) && 0 <= rtype < 65536 && |rdata| < 65536
    ensures var kept := if |rdata| > DataSize then DataSize else |rdata|;
            && RecordAt(msg, Name(labels, i + 2))
               == Ok(Record(Text(labels), rtype, ClassInet, DefaultTtl, rdata[..kept], i + 12 + kept))
            && (rdata[..kept] == rdata <==> |rdata| <= DataSize)
  {
    AnswerParts(msg, i, rtype, rdata);
    var kept := if |rdata| > DataSize then DataSize else |rdata|;
    RecordData(msg, i + 12, rdata, kept);
    RecordFields(msg, i, labels, |rdata|, kept);
  }

  /** read_record in terms of what stands at its places. */
  lemma RecordFields(msg: seq<Byte>, i: nat, labels: seq<Label>, len: nat, kept: nat)
    requires labels != [] && |Dotted(labels)| < NameSize
    requires i + 12 + len <= |msg| && WordAt(msg, i + 10) == len
    requires kept == if len > DataSize then DataSize else len
    ensures RecordAt(msg, Name(labels, i + 2))
         == Ok(Record(Text(labels), WordAt(msg, i + 2), WordAt(msg, i + 4), LongAt(msg, i + 6),
           msg[i + 12..i + 12 + kept], i + 12 + kept))
  {
  }

  lemma RecordData(msg: seq<Byte>, i: nat, rdata: seq<Byte>, k: nat)
    requires Holds(msg, i, rdata) && k <= |rdata|
    ensures msg[i..i + k] == rdata[..k] && (rdata[..k] == rdata <==> k == |rdata|)
  {
  }
}
