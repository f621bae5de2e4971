/**
  The assembly and parsing code of dnrd on its buffers, proved against DnsAnswer.
*/
module DnsMaster {
  import opened Common
  import opened DnsName
  import opened DnsAnswer

  const AssemblySize: nat := 600

  // ---------- Assembly ----------

  /** dnsheader_t as the assembly functions use it. */
  class Packet {
    const packet: array<Byte>
    var here: nat
    var rdata: Option<nat>
    var u: int
    var qdcount: int
    var ancount: int
    var nscount: int
    var arcount: int

    ghost predicate Valid()
      reads this
    {
      && packet.Length == AssemblySize && HeaderSize <= here <= AssemblySize
      && (rdata.Some? ==> HeaderSize <= rdata.value && rdata.value + 2 <= here)
    }

    /** What has been written. */
    ghost function Bytes(): seq<Byte>
      requires Valid()
      reads this, packet
    {
      packet[..here]
    }

    /** The first part of begin_assembly: an empty response of one question. */
    constructor ()
      ensures Valid() && fresh(packet) && Bytes() == seq(HeaderSize, _ => 0) && rdata == None
      ensures u == Response && qdcount == 1 && ancount == nscount == arcount == 0
    {
      packet := new Byte[AssemblySize](_ => 0);
      here, rdata := HeaderSize, None;
      u, qdcount, ancount, nscount, arcount := Response, 1, 0, 0, 0;
    }

    /** *x->here++ = b. */
    method Put(b: Byte)
      requires Valid() && here < AssemblySize
      modifies this`here, packet
      ensures Valid() && Bytes() == old(Bytes()) + [b] && here == old(here) + 1
    {
      packet[here] := b;
      here := here + 1;
    }

    method CompileInt(n: int)
      requires Valid() && here + 2 <= AssemblySize
      modifies this`here, packet
      ensures Valid() && Bytes() == old(Bytes()) + Word(n) && here == old(here) + 2
    {
      Put(n / 256 % 256);
      Put(n % 256);
    }

    method CompileLong(n: int)
      requires Valid() && here + 4 <= AssemblySize
      modifies this`here, packet
      ensures Valid() && Bytes() == old(Bytes()) + Long(n) && here == old(here) + 4
    {
      CompileInt(n / 65536);
      CompileInt(n);
    }

    method CompileObjectname()
      requires Valid() && here + 2 <= AssemblySize
      modifies this`here, packet
      ensures Valid() && Bytes() == old(Bytes()) + [192, HeaderSize] && here == old(here) + 2
    {
      Put(192);
      Put(HeaderSize);
    }

    /** The inner loop of compile_name. */
    method PutAll(bytes: seq<Byte>)
      requires Valid() && here + |bytes| <= AssemblySize
      modifies this`here, packet
      ensures Valid() && Bytes() == old(Bytes()) + bytes && here == old(here) + |bytes|
    {
      for i := 0 to |bytes|
        invariant Valid() && here == old(here) + i && Bytes() == old(Bytes()) + bytes[..i]
      {
        assert bytes[..i + 1] == bytes[..i] + [bytes[i]];
        Put(bytes[i]);
      }
    }

    /** One label of compile_name. */
    method PutLabel(name: seq<Byte>, k: nat, n: nat)
      requires Valid() && 0 < n && k + n <= |name| && here + 1 + n <= AssemblySize
      modifies this`here, packet
      ensures Valid() && Bytes() == old(Bytes()) + ([n % 64] + name[k..k + n]) && here == old(here) + 1 + n
    {
      Put(n % 64);
      PutAll(name[k..k + n]);
    }

    /** compile_name. It needs room for the name, which it does not look for. */
    method CompileName(name: seq<Byte>)
      requires Valid() && here + |Compiled(name, 0)| <= AssemblySize
      modifies this`here, packet
      ensures Valid() && Bytes() == old(Bytes()) + Compiled(name, 0) && here == old(here) + |Compiled(name, 0)|
    {
      var k := 0;
      ghost var start, whole := Bytes(), Compiled(name, 0);
      while k < |name|
        invariant Valid() && 0 <= k <= |name| && Bytes() + Compiled(name, k) == start + whole
        decreases |name| - k
      {
        var n := Span(name, k);
        if n == 0 {
          break;
        }
        CompiledUnfold(name, k, n, Bytes());
        PutLabel(name, k, n);
        k := k + n;
        if k < |name| {
          k := k + 1;
        }
      }
      assert Compiled(name, k) == [0];
      assert |Bytes() + Compiled(name, k)| == |start + whole|;
      Put(0);
    }

    method StartRdata()
      requires Valid() && here + 2 <= AssemblySize
      modifies this`here, this`rdata, packet
      ensures Valid() && Bytes() == old(Bytes()) + Word(0) && here == old(here) + 2 && rdata == Some(old(here))
    {
      rdata := Some(here);
      here := here + 2;
      packet[here - 2], packet[here - 1] := 0, 0;
    }

    /** Overwriting two bytes that have been written. */
    method Patch(at: nat, n: int, ghost pre: seq<Byte>, ghost post: seq<Byte>, ghost w: seq<Byte>)
      requires Valid() && at + 2 <= here && Bytes() == pre + w + post && |pre| == at && |w| == 2
      modifies packet
      ensures Bytes() == pre + Word(n) + post
    {
      packet[at] := n / 256 % 256;
      packet[at + 1] := n % 256;
    }

    /** end_rdata: the length of the data goes in front of them. */
    method EndRdata(ghost pre: seq<Byte>, ghost data: seq<Byte>)
      requires Valid() && rdata == Some(|pre|) && Bytes() == pre + Word(0) + data
      modifies this`rdata, packet
      ensures Valid() && rdata == None && Bytes() == pre + Word(|data|) + data
    {
      assert |Bytes()| == |pre| + 2 + |data|;
      Patch(rdata.value, here - (rdata.value + 2), pre, data, Word(0));
      rdata := None;
    }

    /** end_assembly after end_rdata: flags and counts go into the header. */
    method EndAssembly(ghost id: seq<Byte>, ghost body: seq<Byte>) returns (len: nat)
      requires Valid() && rdata == None && |id| == 2 && Bytes() == id + seq(HeaderSize - 2, _ => 0) + body
      modifies packet
      ensures Valid() && len == here
      ensures Bytes() == id + (Word(u) + (Word(qdcount) + (Word(ancount) + (Word(nscount) + Word(arcount))))) + body
    {
      ghost var h := Word(u) + (Word(qdcount) + (Word(ancount) + (Word(nscount) + Word(arcount))));
      SetWord(1, u);
      SetWord(2, qdcount);
      SetWord(3, ancount);
      SetWord(4, nscount);
      SetWord(5, arcount);
      assert packet[2..HeaderSize] == h;
      assert packet[..2] == id && packet[HeaderSize..here] == body by {
        assert packet[..2] == old(packet[..here])[..2];
        assert packet[HeaderSize..here] == old(packet[..here])[HeaderSize..];
      }
      assert packet[..here] == packet[..2] + packet[2..HeaderSize] + packet[HeaderSize..here];
      len := here;
    }

    /** pkt[k] = htons(n). */
    method SetWord(k: nat, n: int)
      requires Valid() && k < 6
      modifies packet
      ensures packet[2 * k] == n / 256 % 256 && packet[2 * k + 1] == n % 256
      ensures forall i :: 0 <= i < AssemblySize && i != 2 * k && i != 2 * k + 1 ==> packet[i] == old(packet[i])
    {
      packet[2 * k] := n / 256 % 256;
      packet[2 * k + 1] := n % 256;
    }
  }

  /** The length of the label at k. */
  method Span(name: seq<Byte>, k: nat) returns (n: nat)
    requires k <= |name|
    ensures k + n == LabelEnd(name, k)
  {
    n := 0;
    while k + n < |name| && name[k + n] != Dot
      invariant k + n <= |name| && LabelEnd(name, k) == LabelEnd(name, k + n)
    {
      n := n + 1;
    }
  }

  lemma CompiledUnfold(name: seq<Byte>, k: nat, n: nat, was: seq<Byte>)
    requires k + n <= |name| && n > 0 && LabelEnd(name, k) == k + n
    ensures var rest := Compiled(name, if k + n < |name| then k + n + 1 else k + n);
            was + Compiled(name, k) == was + ([n % 64] + name[k..k + n]) + rest
  {
  }

  /** begin_assembly. */
  method BeginAssembly(name: seq<Byte>, qtype: int, qclass: int) returns (x: Packet)
    requires HeaderSize + |Question(name, qtype, qclass)| <= AssemblySize
    ensures fresh(x) && fresh(x.packet) && x.Valid() && x.rdata == None
    ensures x.Bytes() == seq(HeaderSize, _ => 0) + Question(name, qtype, qclass)
    ensures x.u == Response && x.qdcount == 1 && x.ancount == x.nscount == x.arcount == 0
  {
    x := new Packet();
    x.CompileName(name);
    x.CompileInt(qtype);
    x.CompileInt(qclass);
  }

  /** The part of an answer before the length of its data. */
  function AnswerHead(rtype: int): (r: seq<Byte>)
    ensures |r| == 10
  {
    [192, HeaderSize] + (Word(rtype) + (Word(ClassInet) + Long(DefaultTtl)))
  }

  /** The fixed part of an answer: its name, type, class and time to live. */
  method BeginAnswer(x: Packet, rtype: int)
    requires x.Valid() && x.here + 10 <= AssemblySize
    modifies x`here, x.packet
    ensures x.Valid() && x.here == old(x.here) + 10
    ensures x.Bytes() == old(x.Bytes()) + AnswerHead(rtype)
  {
    x.CompileObjectname();
    x.CompileInt(rtype);
    x.CompileInt(ClassInet);
    x.CompileLong(DefaultTtl);
  }

  lemma AnswerSplit(q: seq<Byte>, rtype: int, rdata: seq<Byte>)
    ensures q + AnswerHead(rtype) + Word(|rdata|) + rdata == q + Answer(rtype, rdata)
    ensures |Answer(rtype, rdata)| == 12 + |rdata|
  {
  }

  /** What is left to do when the data of the only answer are written. */
  method Finish(x: Packet, ghost question: seq<Byte>, rtype: int, ghost rdata: seq<Byte>) returns (len: nat)
    requires x.Valid() && x.u == Response && x.qdcount == 1 && x.nscount == x.arcount == 0
    requires x.rdata == Some(HeaderSize + |question| + 10)
    requires x.Bytes() == seq(HeaderSize, _ => 0) + question + AnswerHead(rtype) + Word(0) + rdata
    modifies x`rdata, x`ancount, x.packet
    ensures x.Valid() && len == x.here && x.Bytes() == [0, 0] + (Counts() + (question + Answer(rtype, rdata)))
  {
    ghost var z: seq<Byte> := seq(HeaderSize, _ => 0);
    ghost var pre := z + question + AnswerHead(rtype);
    x.EndRdata(pre, rdata);
    AnswerSplit(z + question, rtype, rdata);
    ghost var body := question + Answer(rtype, rdata);
    assert z + question + Answer(rtype, rdata) == [0, 0] + seq(HeaderSize - 2, _ => 0) + body;
    x.ancount := 1;
    len := x.EndAssembly([0, 0], body);
    assert [0, 0] + Counts() + body == [0, 0] + (Counts() + body);
  }

  /** The answer to a question for an address. */
  method AnswerA(name: seq<Byte>, qclass: int, ipnum: int) returns (x: Packet, len: nat)
    requires HeaderSize + |Question(name, 1, qclass)| + 16 <= AssemblySize
    ensures fresh(x) && fresh(x.packet) && x.Valid() && len == x.here
    ensures x.Bytes() == Message([0, 0], name, 1, qclass, 1, Long(ipnum))
  {
    x := BeginAssembly(name, 1, qclass);
    BeginAnswer(x, 1);
    x.StartRdata();
    x.CompileLong(ipnum);
    len := Finish(x, Question(name, 1, qclass), 1, Long(ipnum));
  }

  /** The answer to a question for a name. */
  method AnswerPtr(name: seq<Byte>, qclass: int, target: seq<Byte>) returns (x: Packet, len: nat)
    requires HeaderSize + |Question(name, 12, qclass)| + 12 + |Compiled(target, 0)| <= AssemblySize
    ensures fresh(x) && fresh(x.packet) && x.Valid() && len == x.here
    ensures x.Bytes() == Message([0, 0], name, 12, qclass, 12, Compiled(target, 0))
  {
    x := BeginAssembly(name, 12, qclass);
    BeginAnswer(x, 12);
    x.StartRdata();
    x.CompileName(target);
    len := Finish(x, Question(name, 12, qclass), 12, Compiled(target, 0));
  }

  // ---------- Parsing ----------

  /** strlen of a buffer with a zero at limit. */
  method Strlen(s: array<Byte>, limit: nat) returns (k: nat)
    requires limit < s.Length && s[limit] == 0
    ensures k <= limit && s[k] == 0 && CString(s[..limit]) == s[..k]
  {
    k := 0;
    assert s[..0] + CString(s[0..limit]) == CString(s[..limit]) by {
      assert s[0..limit] == s[..limit];
    }
    while s[k] != 0
      invariant k <= limit && s[..k] + CString(s[k..limit]) == CString(s[..limit])
      decreases limit - k
    {
      assert s[k..limit][1..] == s[k + 1..limit] && s[k..limit][0] == s[k];
      assert s[..k + 1] == s[..k] + [s[k]];
      k := k + 1;
    }
    assert CString(s[k..limit]) == [];
  }

  /** strnlwr on the first k bytes, which hold no zero. */
  method ToLower(s: array<Byte>, k: nat)
    requires k <= s.Length
    modifies s
    ensures s[..k] == Lower(old(s[..k]))
  {
    for i := 0 to k
      invariant forall j :: 0 <= j < i ==> s[j] == LowerByte(old(s[j]))
      invariant forall j :: i <= j < s.Length ==> s[j] == old(s[j])
    {
      s[i] := LowerByte(s[i]);
    }
  }

  /** The last part of parse_query: a dot at the end goes, and capitals become small. */
  method CleanName(name: array<Byte>, len: nat) returns (k: nat)
    requires len < name.Length && name[len] == 0
    modifies name
    ensures k <= len && name[..k] == Lower(StripDot(CString(old(name[..len]))))
  {
    k := Strlen(name, len);
    ghost var text := name[..k];
    if k > 0 && name[k - 1] == Dot {
      k := k - 1;
      name[k] := 0;
    }
    assert name[..k] == StripDot(text);
    ToLower(name, k);
  }

  /** parse_query. */
  method ParseQuery(tolerant: bool, msg: seq<Byte>) returns (r: Parsed<Query>)
    requires |msg| >= HeaderSize
    ensures r == ParsedQuery(tolerant, msg)
  {
    if WordAt(msg, 4) == 0 {
      return Error;
    }
    var name := new Byte[NameSize](_ => 0);
    var out := GetObjname(tolerant, msg, HeaderSize, name);
    ghost var reading := ReadName(tolerant, msg, HeaderSize, Hops(msg));
    if out.Failed? {
      return Error;
    }
    if out.Underflow? {
      return Undefined;
    }
    DottedIsText(reading.labels);
    var i := out.next;
    if i + 4 > |msg| {
      return Error;
    }
    var k := CleanName(name, out.len);
    return Ok(Query(WordAt(msg, 2), name[..k], WordAt(msg, i), WordAt(msg, i + 2)));
  }

  /** read_record on an answer. */
  method ReadAnswer(tolerant: bool, msg: seq<Byte>, index: nat) returns (r: Parsed<Record>)
    ensures r == ReadRecord(tolerant, msg, index)
  {
    var name := new Byte[NameSize](_ => 0);
    var out := GetObjname(tolerant, msg, index, name);
    match out
    case Failed => return Error;
    case Underflow => return Undefined;
    case Found(at, len) =>
      DottedIsText(ReadName(tolerant, msg, index, Hops(msg)).labels);
      var i := at;
      if i + 4 > |msg| {
        return Error;
      }
      var rtype := WordAt(msg, i);
      i := i + 2;
      var class_ := WordAt(msg, i);
      i := i + 2;
      if i + 6 > |msg| {
        return Error;
      }
      var ttl := LongAt(msg, i);
      i := i + 4;
      var size := WordAt(msg, i);
      i := i + 2;
      if i + size > |msg| {
        return Error;
      }
      if size > DataSize {
        size := DataSize;
      }
      return Ok(Record(name[..len], rtype, class_, ttl, msg[i..i + size], i + size));
  }

  // ---------- Lookup ----------

  /** A DNS_NAMEIP record of the database. */
  datatype Host = Host(name: seq<Byte>, arpa: seq<Byte>, ipnum: int)

  const ArpaDomain: seq<Byte> := [46, 105, 110, 45, 97, 100, 100, 114, 46, 97, 114, 112, 97]   // ".in-addr.arpa"

  /** The first host with this name, or |db|. */
  function HostNamed(db: seq<Host>, name: seq<Byte>, i: nat): (k: nat)
    requires i <= |db|
    ensures i <= k <= |db| && (k < |db| ==> db[k].name == name)
    decreases |db| - i
  {
    if i == |db| || db[i].name == name then i else HostNamed(db, name, i + 1)
  }

  function HostAt(db: seq<Host>, arpa: seq<Byte>, i: nat): (k: nat)
    requires i <= |db|
    ensures i <= k <= |db| && (k < |db| ==> db[k].arpa == arpa)
    decreases |db| - i
  {
    if i == |db| || db[i].arpa == arpa then i else HostAt(db, arpa, i + 1)
  }

  /** GET_OPCODE is not zero. Its mask takes bit 15 of the flags and leaves out bit 12. */
  predicate OpcodeSet(flags: int) {
    flags / 0x8000 % 2 == 1 || flags / 0x4000 % 2 == 1 || flags / 0x2000 % 2 == 1 || flags / 0x800 % 2 == 1
  }

  /** The opcode of section 4.1.1 of RFC 1035: bits 11 to 14. */
  function Opcode(flags: int): int {
    flags / 0x800 % 16
  }

  /** The test is right except on responses to standard queries, which it takes for something
      else, and on status queries, which it takes for standard ones. */
  lemma OpcodeSetExactly(flags: int)
    requires 0 <= flags < 0x1_0000
    ensures (OpcodeSet(flags) <==> Opcode(flags) != 0)
       <==> !(flags >= 0x8000 && Opcode(flags) == 0) && !(flags < 0x8000 && Opcode(flags) == 2)
  {
  }

  lemma OpcodeExamples()
    ensures !OpcodeSet(0x1000) && Opcode(0x1000) == 2
    ensures OpcodeSet(0x8000) && Opcode(0x8000) == 0
  {
  }

  /** The data of the answer that the A and PTR branches of master_lookup find. */
  function Reply(db: seq<Host>, q: Query): Option<seq<Byte>> {
    var k := |q.name| - |ArpaDomain|;
    if q.qclass != ClassInet || OpcodeSet(q.flags) then None
    else if q.qtype == 12 then
      if k < 0 || q.name[k..] != ArpaDomain then None else
      var h := HostAt(db, q.name[..k], 0);
      if h < |db| then Some(Compiled(db[h].name, 0)) else None
    else if q.qtype == 1 then
      var h := HostNamed(db, q.name, 0);
      if h < |db| then Some(Long(db[h].ipnum)) else None
    else None
  }

  method NameLookup(db: seq<Host>, name: seq<Byte>) returns (i: nat)
    ensures i == HostNamed(db, name, 0)
  {
    i := 0;
    while i < |db| && db[i].name != name
      invariant i <= |db| && HostNamed(db, name, 0) == HostNamed(db, name, i)
    {
      i := i + 1;
    }
  }

  method PtrLookup(db: seq<Host>, arpa: seq<Byte>) returns (i: nat)
    ensures i == HostAt(db, arpa, 0)
  {
    i := 0;
    while i < |db| && db[i].arpa != arpa
      invariant i <= |db| && HostAt(db, arpa, 0) == HostAt(db, arpa, i)
    {
      i := i + 1;
    }
  }

  lemma ShortName(tolerant: bool, msg: seq<Byte>)
    requires |msg| >= HeaderSize && ParsedQuery(tolerant, msg).Ok?
    ensures |ParsedQuery(tolerant, msg).value.name| <= 254
  {
    var r := ReadName(tolerant, msg, HeaderSize, Hops(msg));
    DottedIsText(r.labels);
    CStringShort(Text(r.labels));
  }

  lemma {:induction false} CStringShort(s: seq<Byte>)
    ensures |CString(s)| <= |s|
  {
    if s != [] {
      CStringShort(s[1..]);
    }
  }

  /** The assembled message goes into the client's, behind the id. */
  method CopyAnswer(msg: array<Byte>, x: Packet, len: nat)
    requires x.Valid() && len == x.here && len <= msg.Length && msg != x.packet
    modifies msg
    ensures msg[..len] == old(msg[..2]) + x.Bytes()[2..]
  {
    for i := 2 to len
      invariant msg[..2] == old(msg[..2]) && forall k :: 2 <= k < i ==> msg[k] == x.packet[k]
    {
      msg[i] := x.packet[i];
    }
    assert msg[..len] == msg[..2] + msg[2..len];
    assert msg[2..len] == x.Bytes()[2..];
  }

  const UdpSize: nat := 512     // UDP_MAXSIZE

  /** What master_lookup returns, or that it goes on with a name that was never written. */
  datatype Looked = Undetermined | Length(len: nat)

  /** What fits: names as long as a question can be, and addresses of at most 213 bytes, of which a
      dotted quad needs 15. */
  predicate Storable(db: seq<Host>) {
    forall i :: 0 <= i < |db| ==> |db[i].name| <= 254 && |db[i].arpa| <= 213
  }

  /** An answer fits into a datagram. */
  lemma ReplyFits(db: seq<Host>, q: Query, id: seq<Byte>)
    requires Storable(db) && |q.name| <= 254 && Reply(db, q).Some? && |id| == 2
    ensures |Message(id, q.name, q.qtype, ClassInet, q.qtype, Reply(db, q).value)| <= UdpSize
  {
    MessageSize(id, q.name, q.qtype, ClassInet, q.qtype, Reply(db, q).value);
  }

  lemma MessageSize(id: seq<Byte>, name: seq<Byte>, qtype: int, qclass: int, rtype: int, rdata: seq<Byte>)
    ensures |Message(id, name, qtype, qclass, rtype, rdata)| == |id| + 26 + |Compiled(name, 0)| + |rdata|
  {
  }

  /** The branches for an address and for a name: the answer is assembled if there is one. */
  method Assemble(db: seq<Host>, q: Query) returns (x: Option<Packet>)
    requires Storable(db) && |q.name| <= 254 && q.qclass == ClassInet && !OpcodeSet(q.flags)
    ensures x.Some? <==> Reply(db, q).Some?
    ensures x.Some? ==> fresh(x.value) && fresh(x.value.packet) && x.value.Valid()
    ensures x.Some? ==> x.value.Bytes() == Message([0, 0], q.name, q.qtype, ClassInet, q.qtype, Reply(db, q).value)
  {
    var p, len;
    if q.qtype == 12 {
      var k := |q.name| - |ArpaDomain|;
      if k < 0 || q.name[k..] != ArpaDomain {
        return None;
      }
      var h := PtrLookup(db, q.name[..k]);
      if h == |db| {
        return None;
      }
      p, len := AnswerPtr(q.name, ClassInet, db[h].name);
    } else if q.qtype == 1 {
      var h := NameLookup(db, q.name);
      if h == |db| {
        return None;
      }
      p, len := AnswerA(q.name, ClassInet, db[h].ipnum);
    } else {
      return None;
    }
    x := Some(p);
  }

  /** The A and PTR branches of master_lookup, when the database has no NS records: a question
      that it can answer is replaced, id apart, by the answer, which fits into a datagram; any
      other is left alone, but for the root name, whose text is undetermined. */
  method MasterLookup(tolerant: bool, db: seq<Host>, msg: array<Byte>, len: nat) returns (r: Looked)
    requires HeaderSize <= len <= msg.Length && UdpSize <= msg.Length && Storable(db)
    modifies msg
    ensures r.Undetermined? <==> ParsedQuery(tolerant, old(msg[..len])).Undefined?
    ensures r.Length? ==> r.len <= UdpSize
    ensures r.Length? ==>
      var q := ParsedQuery(tolerant, old(msg[..len]));
      if q.Ok? && Reply(db, q.value).Some? then
        msg[..r.len] == Message(old(msg[..2]), q.value.name, q.value.qtype, ClassInet, q.value.qtype,
          Reply(db, q.value).value)
      else r.len == 0 && msg[..] == old(msg[..])
  {
    var p := ParseQuery(tolerant, msg[..len]);
    if p.Undefined? {
      return Undetermined;
    }
    if p.Error? || p.value.qclass != ClassInet || OpcodeSet(p.value.flags) {
      return Length(0);
    }
    ShortName(tolerant, msg[..len]);
    var x := Assemble(db, p.value);
    if x.None? {
      return Length(0);
    }
    ReplyFits(db, p.value, [0, 0]);
    SwapId(msg[..2], x.value.Bytes(), p.value.name, p.value.qtype, Reply(db, p.value).value);
    CopyAnswer(msg, x.value, x.value.here);
    return Length(x.value.here);
  }

  lemma SwapId(id: seq<Byte>, bytes: seq<Byte>, name: seq<Byte>, t: int, rdata: seq<Byte>)
    requires |id| == 2 && bytes == Message([0, 0], name, t, ClassInet, t, rdata)
    ensures id + bytes[2..] == Message(id, name, t, ClassInet, t, rdata)
  {
  }

  // ---------- Question and answer ----------

  function LowerLabels(labels: seq<Label>): (r: seq<Label>)
    ensures |r| == |labels| && forall i :: 0 <= i < |r| ==> r[i] == Lower(labels[i])
  {
    seq(|labels|, i requires 0 <= i < |labels| => Lower(labels[i]))
  }

  lemma LowerAppend(a: seq<Byte>, b: seq<Byte>)
    ensures Lower(a + [Dot] + b) == Lower(a) + [Dot] + Lower(b)
  {
  }

  lemma {:induction false} LowerText(labels: seq<Label>)
    requires labels != []
    ensures Text(LowerLabels(labels)) == Lower(Text(labels))
    decreases |labels|
  {
    var r := LowerLabels(labels);
    if |labels| > 1 {
      assert r[1..] == LowerLabels(labels[1..]);
      LowerText(labels[1..]);
      LowerAppend(labels[0], Text(labels[1..]));
    }
  }

  lemma LowerTwice(s: seq<Byte>)
    ensures Lower(Lower(s)) == Lower(s)
  {
  }

  lemma LowerLabelOk(tolerant: bool, l: Label)
    ensures ValidLabel(tolerant, l) ==> ValidLabel(tolerant, Lower(l))
    ensures Dot !in l && 0 !in l ==> Dot !in Lower(l) && 0 !in Lower(l)
  {
    assert forall i :: 0 <= i < |l| ==> l[i] in l;
  }

  /** A plain name in lower case is a plain name. */
  lemma LowerPlain(tolerant: bool, labels: seq<Label>)
    requires PlainName(tolerant, labels)
    ensures PlainName(tolerant, LowerLabels(labels)) && Text(LowerLabels(labels)) == Lower(Text(labels))
  {
    LowerText(labels);
    forall i | 0 <= i < |labels|
      ensures ValidLabel(tolerant, Lower(labels[i])) && Dot !in Lower(labels[i]) && 0 !in Lower(labels[i])
    {
      LowerLabelOk(tolerant, labels[i]);
    }
  }

  lemma QuestionName(tolerant: bool, question: seq<Byte>, labels: seq<Label>)
    requires |question| >= HeaderSize && PlainName(tolerant, labels) && ParsedQuery(tolerant, question).Ok?
    requires ReadName(tolerant, question, HeaderSize, Hops(question)).labels == labels
    ensures var q := ParsedQuery(tolerant, question).value;
            q.name == Lower(Text(labels)) && 0 <= q.qtype < 0x1_0000
  {
    TextPlain(labels);
    CStringWhole(Text(labels));
  }

  /** msg is an answer to q with these data, as far as a reader keeps them. */
  ghost predicate AnswersWith(tolerant: bool, msg: seq<Byte>, q: Query, data: seq<Byte>) {
    && |msg| >= HeaderSize && ParsedQuery(tolerant, msg) == Ok(q.(flags := Response))
    && var r := ReadRecord(tolerant, msg, HeaderSize + |q.name| + 6);
       && r.Ok? && r.value.name == q.name && r.value.rtype == q.qtype
       && r.value.class_ == ClassInet && r.value.ttl == DefaultTtl
       && r.value.data == if |data| <= DataSize then data else data[..DataSize]
  }

  lemma AnswerDecodes(tolerant: bool, id: seq<Byte>, q: Query, labels: seq<Label>, data: seq<Byte>)
    requires |id| == 2 && PlainName(tolerant, labels) && q.name == Text(labels) == Lower(Text(labels))
    requires 0 <= q.qtype < 0x1_0000 && q.qclass == ClassInet && |data| < 0x1_0000
    ensures AnswersWith(tolerant, Message(id, q.name, q.qtype, ClassInet, q.qtype, data), q, data)
  {
    RoundTrip(tolerant, id, labels, q.qtype, ClassInet, q.qtype, data);
  }

  lemma ReplyShort(db: seq<Host>, q: Query)
    requires Storable(db) && Reply(db, q).Some?
    ensures |Reply(db, q).value| <= 256 && q.qclass == ClassInet
  {
  }

  /** From question to answer: what the lookup leaves for a question with a plain name decodes to
      that question, in lower case, and to a record of the data found for it. */
  lemma LookupRoundTrip(tolerant: bool, db: seq<Host>, question: seq<Byte>, labels: seq<Label>, id: seq<Byte>)
    requires |question| >= HeaderSize && PlainName(tolerant, labels) && ParsedQuery(tolerant, question).Ok?
    requires ReadName(tolerant, question, HeaderSize, Hops(question)).labels == labels
    requires |id| == 2 && Storable(db) && Reply(db, ParsedQuery(tolerant, question).value).Some?
    ensures var q := ParsedQuery(tolerant, question).value;
            var data := Reply(db, q).value;
            && q.name == Lower(Text(labels))
            && AnswersWith(tolerant, Message(id, q.name, q.qtype, ClassInet, q.qtype, data), q, data)
  {
    var q := ParsedQuery(tolerant, question).value;
    QuestionName(tolerant, question, labels);
    ReplyShort(db, q);
    LowerPlain(tolerant, labels);
    LowerTwice(Text(labels));
    AnswerDecodes(tolerant, id, q, LowerLabels(labels), Reply(db, q).value);
  }
}
