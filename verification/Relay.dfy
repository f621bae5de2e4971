module Relay {
  // The rinetd relay: one connection slot, whose two bounded buffers carry bytes from the remote
  // client to the local server and back, and the select pass that drives its four handlers. What
  // recv, send and select answer is chosen by the environment.

  import opened Common

  const BufferSpace: nat := 1024

  // ---------- The slot as a value ----------

  /** How a socket came to be closed. */
  datatype End = Open | ByPeer | ByRelay

  /** One direction: everything received from one side, everything the other side accepted, and
      the buffer up to its read position. */
  datatype Flow = Flow(received: seq<Byte>, delivered: seq<Byte>, held: seq<Byte>, wpos: nat)

  datatype Log = LocalClosedFirst | RemoteClosedFirst

  /** input runs from the remote to the local side. The two counters count closesocket calls,
      and logged the lines written when a connection is done. */
  datatype Conn = Conn(input: Flow, output: Flow, re: End, lo: End, closing: bool, closed: bool,
                       reCloses: nat, loCloses: nat, bytesInput: nat, bytesOutput: nat, why: Log, logged: seq<Log>)

  /** The answers of recv and send. */
  datatype Recv = Data(bytes: seq<Byte>) | Eof | ReadLater | ReadFailed
  datatype Sent = Accepted(count: nat) | WriteLater | WriteFailed

  /** What select reports for one slot, and what the calls then answer. */
  datatype Env = Env(reRead: bool, reWrite: bool, loRead: bool, loWrite: bool,
                     fromRe: Recv, toRe: Sent, fromLo: Recv, toLo: Sent)

  function Pending(f: Flow): seq<Byte>
    requires f.wpos <= |f.held|
  {
    f.held[f.wpos..]
  }

  /** recv stays inside the space it is given, and gives at least a byte or an end of file. */
  predicate RecvFits(f: Flow, r: Recv) {
    r.Data? ==> 0 < |r.bytes| && |f.held| + |r.bytes| <= BufferSpace
  }

  predicate SentFits(f: Flow, s: Sent) {
    s.Accepted? ==> f.wpos + s.count <= |f.held|
  }

  function Filled(f: Flow, bytes: seq<Byte>): Flow {
    f.(received := f.received + bytes, held := f.held + bytes)
  }

  function Drained(f: Flow, n: nat): Flow
    requires f.wpos + n <= |f.held|
  {
    var f' := f.(delivered := f.delivered + f.held[f.wpos..f.wpos + n], wpos := f.wpos + n);
    if f'.wpos == |f'.held| then f'.(held := [], wpos := 0) else f'
  }

  /** handleCloseFromRemote. */
  function CloseFromRemote(c: Conn): Conn {
    c.(closing := true, reCloses := c.reCloses + 1, re := ByPeer,
       why := if c.lo.Open? then RemoteClosedFirst else c.why)
  }

  /** handleCloseFromLocal. */
  function CloseFromLocal(c: Conn): Conn {
    c.(closing := true, loCloses := c.loCloses + 1, lo := ByPeer,
       why := if c.re.Open? then LocalClosedFirst else c.why)
  }

  function RemoteRead(c: Conn, r: Recv): Conn {
    if |c.input.held| == BufferSpace then c else
    match r
    case Data(bytes) => c.(input := Filled(c.input, bytes), bytesInput := c.bytesInput + |bytes|)
    case ReadLater => c
    case Eof => CloseFromRemote(c)
    case ReadFailed => CloseFromRemote(c)
  }

  function LocalRead(c: Conn, r: Recv): Conn {
    if |c.output.held| == BufferSpace then c else
    match r
    case Data(bytes) => c.(output := Filled(c.output, bytes))
    case ReadLater => c
    case Eof => CloseFromLocal(c)
    case ReadFailed => CloseFromLocal(c)
  }

  function RemoteWrite(c: Conn, s: Sent): Conn
    requires SentFits(c.output, s)
  {
    if c.closing && c.output.wpos == |c.output.held| then
      c.(re := ByRelay, closed := true, reCloses := c.reCloses + 1, logged := c.logged + [c.why])
    else
    match s
    case Accepted(n) => c.(output := Drained(c.output, n), bytesOutput := c.bytesOutput + n)
    case WriteLater => c
    case WriteFailed => CloseFromRemote(c)
  }

  function LocalWrite(c: Conn, s: Sent): Conn
    requires SentFits(c.input, s)
  {
    if c.closing && c.input.wpos == |c.input.held| then
      c.(lo := ByRelay, closed := true, loCloses := c.loCloses + 1, logged := c.logged + [c.why])
    else
    match s
    case Accepted(n) => c.(input := Drained(c.input, n))
    case WriteLater => c
    case WriteFailed => CloseFromLocal(c)
  }

  // ---------- One pass, and runs ----------

  /** The answer to the call of handler k, of the four of a pass, fits the slot. */
  predicate AnswerFits(c: Conn, e: Env, k: nat) {
    match k
    case 0 => c.re.Open? && e.reRead ==> RecvFits(c.input, e.fromRe)
    case 1 => c.re.Open? && e.reWrite ==> SentFits(c.output, e.toRe)
    case 2 => c.lo.Open? && e.loRead ==> RecvFits(c.output, e.fromLo)
    case _ => c.lo.Open? && e.loWrite ==> SentFits(c.input, e.toLo)
  }

  /** Handler k, run if select reported its socket and the socket is still open. */
  function Handled(c: Conn, e: Env, k: nat): Conn
    requires AnswerFits(c, e, k)
  {
    match k
    case 0 => if c.re.Open? && e.reRead then RemoteRead(c, e.fromRe) else c
    case 1 => if c.re.Open? && e.reWrite then RemoteWrite(c, e.toRe) else c
    case 2 => if c.lo.Open? && e.loRead then LocalRead(c, e.fromLo) else c
    case _ => if c.lo.Open? && e.loWrite then LocalWrite(c, e.toLo) else c
  }

  /** The answers fit from handler k on. */
  predicate FitsFrom(c: Conn, e: Env, k: nat)
    requires k <= 4
    decreases 4 - k
  {
    k == 4 || (AnswerFits(c, e, k) && FitsFrom(Handled(c, e, k), e, k + 1))
  }

  /** The slot after the handlers from k on. */
  function After(c: Conn, e: Env, k: nat): Conn
    requires k <= 4 && FitsFrom(c, e, k)
    decreases 4 - k
  {
    if k == 4 then c else After(Handled(c, e, k), e, k + 1)
  }

  predicate Fits(c: Conn, e: Env) {
    c.closed || FitsFrom(c, e, 0)
  }

  /** The part of selectPass that handles one slot. */
  function Pass(c: Conn, e: Env): Conn
    requires Fits(c, e)
  {
    if c.closed then c else
    var d := After(c, e, 0);
    d.(closed := d.closed || (!d.lo.Open? && !d.re.Open?))
  }

  /** A slot as handleAccept and openLocalFd leave it. */
  function Established(): Conn {
    Conn(Flow([], [], [], 0), Flow([], [], [], 0), Open, Open, false, false, 0, 0, 0, 0, LocalClosedFirst, [])
  }

  /** cs is a run of passes of one connection. */
  ghost predicate Run(cs: seq<Conn>, es: seq<Env>) {
    && |cs| == |es| + 1 && cs[0] == Established()
    && forall k {:trigger es[k]} :: 0 <= k < |es| ==> Fits(cs[k], es[k]) && cs[k + 1] == Pass(cs[k], es[k])
  }

  // ---------- What every pass keeps ----------

  /** received = delivered ++ buffer[WPos..RPos]. */
  ghost predicate Conserved(f: Flow)
    requires f.wpos <= |f.held|
  {
    f.received == f.delivered + Pending(f)
  }

  ghost predicate OpenFlow(f: Flow, u: nat) {
    true
  }

  /** The positions are in the buffer, an empty buffer starts at 0 again, and nothing is lost; the
      last under a quantifier that only FlowMeans opens, so that the handlers' proofs take it as a
      name. */
  ghost predicate FlowOk(f: Flow) {
    && f.wpos <= |f.held| <= BufferSpace && (f.held != [] ==> f.wpos < |f.held|)
    && forall u: nat {:trigger OpenFlow(f, u)} :: OpenFlow(f, u) ==> Conserved(f)
  }

  lemma FlowMeans(f: Flow)
    requires FlowOk(f)
    ensures Conserved(f)
  {
    assert OpenFlow(f, 0);
  }

  /** Every socket was closed once if it is closed; the relay closes a socket itself only when the
      peer of the other one is gone and all that came from there was delivered. */
  ghost predicate EndsOk(c: Conn) {
    && (c.closing <==> !c.re.Open? || !c.lo.Open?)
    && c.reCloses == (if c.re.Open? then 0 else 1) && c.loCloses == (if c.lo.Open? then 0 else 1)
    && (c.re.ByRelay? ==> c.lo.ByPeer? && c.output.held == [])
    && (c.lo.ByRelay? ==> c.re.ByPeer? && c.input.held == [])
    && (c.closed ==> !c.re.Open? && !c.lo.Open?)
    && c.logged == (if c.re.ByRelay? || c.lo.ByRelay? then [c.why] else [])
    && (c.re.Open? && !c.lo.Open? ==> c.why == LocalClosedFirst)
    && (c.lo.Open? && !c.re.Open? ==> c.why == RemoteClosedFirst)
    && (c.re.ByRelay? ==> c.why == LocalClosedFirst) && (c.lo.ByRelay? ==> c.why == RemoteClosedFirst)
  }

  ghost predicate Inv(c: Conn) {
    && FlowOk(c.input) && FlowOk(c.output) && EndsOk(c)
    && c.bytesInput == |c.input.received| && c.bytesOutput == |c.output.delivered|
  }

  lemma FilledOk(f: Flow, bytes: seq<Byte>)
    requires FlowOk(f) && RecvFits(f, Data(bytes))
    ensures FlowOk(Filled(f, bytes)) && Filled(f, bytes).delivered == f.delivered
      && f.received <= Filled(f, bytes).received
  {
    FlowMeans(f);
    assert (f.held + bytes)[f.wpos..] == f.held[f.wpos..] + bytes;
  }

  lemma DrainedOk(f: Flow, n: nat)
    requires FlowOk(f) && f.wpos + n <= |f.held|
    ensures FlowOk(Drained(f, n)) && |Drained(f, n).delivered| == |f.delivered| + n
    ensures Drained(f, n).received == f.received && f.delivered <= Drained(f, n).delivered
    ensures |Pending(Drained(f, n))| == |Pending(f)| - n
  {
    FlowMeans(f);
    assert f.held[f.wpos..] == f.held[f.wpos..f.wpos + n] + f.held[f.wpos + n..];
  }

  /** d goes on from c: nothing received or delivered is taken back, and a closed socket stays
      as it was closed and sees no more bytes. */
  ghost predicate GoesOn(c: Conn, d: Conn) {
    && c.input.received <= d.input.received && c.input.delivered <= d.input.delivered
    && c.output.received <= d.output.received && c.output.delivered <= d.output.delivered
    && (!c.re.Open? ==>
       d.re == c.re && d.input.received == c.input.received && d.output.delivered == c.output.delivered)
    && (!c.lo.Open? ==>
       d.lo == c.lo && d.output.received == c.output.received && d.input.delivered == c.input.delivered)
  }

  lemma GoesOnTrans(c: Conn, d: Conn, e: Conn)
    requires GoesOn(c, d) && GoesOn(d, e)
    ensures GoesOn(c, e)
  {
  }

  lemma RemoteReadOk(c: Conn, r: Recv)
    requires Inv(c) && c.re.Open? && RecvFits(c.input, r)
    ensures Inv(RemoteRead(c, r)) && GoesOn(c, RemoteRead(c, r))
  {
    if r.Data? && |c.input.held| < BufferSpace {
      FilledOk(c.input, r.bytes);
      assert FlowOk(RemoteRead(c, r).input);
    } else {
      assert RemoteRead(c, r).input == c.input;
    }
  }

  lemma LocalReadOk(c: Conn, r: Recv)
    requires Inv(c) && c.lo.Open? && RecvFits(c.output, r)
    ensures Inv(LocalRead(c, r)) && GoesOn(c, LocalRead(c, r))
  {
    if r.Data? && |c.output.held| < BufferSpace {
      FilledOk(c.output, r.bytes);
      assert FlowOk(LocalRead(c, r).output);
    } else {
      assert LocalRead(c, r).output == c.output;
    }
  }

  lemma RemoteWriteOk(c: Conn, s: Sent)
    requires Inv(c) && c.re.Open? && SentFits(c.output, s)
    ensures Inv(RemoteWrite(c, s)) && GoesOn(c, RemoteWrite(c, s))
  {
    if s.Accepted? {
      DrainedOk(c.output, s.count);
    }
  }

  lemma LocalWriteOk(c: Conn, s: Sent)
    requires Inv(c) && c.lo.Open? && SentFits(c.input, s)
    ensures Inv(LocalWrite(c, s)) && GoesOn(c, LocalWrite(c, s))
  {
    if s.Accepted? {
      DrainedOk(c.input, s.count);
    }
  }

  lemma HandledOk(c: Conn, e: Env, k: nat)
    requires Inv(c) && AnswerFits(c, e, k)
    ensures Inv(Handled(c, e, k)) && GoesOn(c, Handled(c, e, k))
  {
    if c.re.Open? && RecvFits(c.input, e.fromRe) {
      RemoteReadOk(c, e.fromRe);
    }
    if c.re.Open? && SentFits(c.output, e.toRe) {
      RemoteWriteOk(c, e.toRe);
    }
    if c.lo.Open? && RecvFits(c.output, e.fromLo) {
      LocalReadOk(c, e.fromLo);
    }
    if c.lo.Open? && SentFits(c.input, e.toLo) {
      LocalWriteOk(c, e.toLo);
    }
  }

  lemma {:induction false} AfterOk(c: Conn, e: Env, k: nat)
    requires Inv(c) && k <= 4 && FitsFrom(c, e, k)
    ensures Inv(After(c, e, k)) && GoesOn(c, After(c, e, k))
    decreases 4 - k
  {
    if k < 4 {
      HandledOk(c, e, k);
      AfterOk(Handled(c, e, k), e, k + 1);
      GoesOnTrans(c, Handled(c, e, k), After(c, e, k));
    }
  }

  /** A pass keeps the invariant, and frees the slot exactly when both sockets are closed. */
  lemma PassOk(c: Conn, e: Env)
    requires Inv(c) && Fits(c, e)
    ensures Inv(Pass(c, e)) && GoesOn(c, Pass(c, e))
    ensures Pass(c, e).closed <==> !Pass(c, e).re.Open? && !Pass(c, e).lo.Open?
  {
    if !c.closed {
      AfterOk(c, e, 0);
    }
  }

  lemma RunStep(cs: seq<Conn>, es: seq<Env>, k: nat)
    requires Run(cs, es) && k < |es| && Inv(cs[k])
    ensures Inv(cs[k + 1]) && GoesOn(cs[k], cs[k + 1])
    ensures cs[k + 1].closed <==> !cs[k + 1].re.Open? && !cs[k + 1].lo.Open?
  {
    PassOk(cs[k], es[k]);
  }

  /** Every state of every run keeps the invariant. */
  lemma {:induction false} RunInv(cs: seq<Conn>, es: seq<Env>, k: nat)
    requires Run(cs, es) && k < |cs|
    ensures Inv(cs[k]) && (cs[k].closed <==> !cs[k].re.Open? && !cs[k].lo.Open?)
  {
    if k > 0 {
      RunInv(cs, es, k - 1);
      RunStep(cs, es, k - 1);
    }
  }

  /** Every state of a run goes on from every earlier one. */
  lemma {:induction false} RunGoesOn(cs: seq<Conn>, es: seq<Env>, j: nat, k: nat)
    requires Run(cs, es) && j <= k < |cs|
    ensures GoesOn(cs[j], cs[k])
  {
    if j < k {
      RunGoesOn(cs, es, j, k - 1);
      RunInv(cs, es, k - 1);
      RunStep(cs, es, k - 1);
      GoesOnTrans(cs[j], cs[k - 1], cs[k]);
    }
  }

  /** In every state of every run, each direction has delivered a prefix of what it received and
      holds the rest; a slot is reusable only once each socket was closed once; and what the
      relay closed itself had been given everything that ever came from the other side. */
  lemma RelayedFaithfully(cs: seq<Conn>, es: seq<Env>, k: nat)
    requires Run(cs, es) && k < |cs|
    ensures var c := cs[k];
            && c.input.wpos <= |c.input.held| <= BufferSpace
               && c.input.received == c.input.delivered + c.input.held[c.input.wpos..]
            && c.output.wpos <= |c.output.held| <= BufferSpace
               && c.output.received == c.output.delivered + c.output.held[c.output.wpos..]
            && c.reCloses <= 1 && c.loCloses <= 1 && (c.closed <==> c.reCloses == 1 && c.loCloses == 1)
            && (c.re.ByRelay? ==> c.output.delivered == c.output.received)
            && (c.lo.ByRelay? ==> c.input.delivered == c.input.received)
            && |c.logged| <= 1
    ensures cs[k].re.ByRelay? ==> forall j :: k <= j < |cs| ==> cs[j].output.received == cs[k].output.delivered
    ensures cs[k].lo.ByRelay? ==> forall j :: k <= j < |cs| ==> cs[j].input.received == cs[k].input.delivered
  {
    RunInv(cs, es, k);
    FlowMeans(cs[k].input);
    FlowMeans(cs[k].output);
    forall j | k <= j < |cs|
      ensures GoesOn(cs[k], cs[j])
    {
      RunGoesOn(cs, es, k, j);
    }
  }

  // ---------- Closing connections drain ----------

  /** The remote side takes at least a byte if there is one for it. */
  predicate RemoteTakes(c: Conn, e: Env) {
    e.reWrite && e.toRe.Accepted? && (c.output.held != [] ==> e.toRe.count > 0)
  }

  predicate LocalTakes(c: Conn, e: Env) {
    e.loWrite && e.toLo.Accepted? && (c.input.held != [] ==> e.toLo.count > 0)
  }

  lemma PassInFour(c: Conn, e: Env)
    requires Fits(c, e) && !c.closed
    ensures AnswerFits(c, e, 0) && AnswerFits(Handled(c, e, 0), e, 1)
    ensures var d := Handled(Handled(c, e, 0), e, 1);
            && AnswerFits(d, e, 2) && AnswerFits(Handled(d, e, 2), e, 3)
            && var d' := Handled(Handled(d, e, 2), e, 3);
               Pass(c, e) == d'.(closed := d'.closed || (!d'.lo.Open? && !d'.re.Open?))
  {
    var c1 := Handled(c, e, 0);
    var c2 := Handled(c1, e, 1);
    var c3 := Handled(c2, e, 2);
    assert After(c, e, 0) == After(c1, e, 1) == After(c2, e, 2) == After(c3, e, 3) == After(Handled(c3, e, 3), e, 4);
  }

  lemma RemoteWriteDrains(c: Conn, s: Sent)
    requires Inv(c) && c.re.Open? && !c.lo.Open? && s.Accepted? && SentFits(c.output, s)
      && (c.output.held != [] ==> s.count > 0)
    ensures var d := RemoteWrite(c, s);
            d.re.ByRelay? || (d.re.Open? && FlowOk(d.output) && |Pending(d.output)| < |Pending(c.output)|)
  {
    if c.output.held != [] {
      DrainedOk(c.output, s.count);
    }
  }

  lemma LocalWriteDrains(c: Conn, s: Sent)
    requires Inv(c) && c.lo.Open? && !c.re.Open? && s.Accepted? && SentFits(c.input, s)
      && (c.input.held != [] ==> s.count > 0)
    ensures var d := LocalWrite(c, s);
            d.lo.ByRelay? || (d.lo.Open? && FlowOk(d.input) && |Pending(d.input)| < |Pending(c.input)|)
  {
    if c.input.held != [] {
      DrainedOk(c.input, s.count);
    }
  }

  lemma RemoteDrainPass(c: Conn, e: Env)
    requires Inv(c) && !c.closed && Fits(c, e) && !c.lo.Open? && c.re.Open? && RemoteTakes(c, e)
    ensures var d := Pass(c, e);
            d.closed || (d.re.Open? && !d.lo.Open? && FlowOk(d.output) && |Pending(d.output)| < |Pending(c.output)|)
  {
    LocalGone(c, e);
    HandledOk(c, e, 0);
    var c1 := Handled(c, e, 0);
    if c1.re.Open? {
      RemoteWriteDrains(c1, e.toRe);
    }
  }

  /** Once the local side is gone only the handlers of the remote socket matter. */
  lemma LocalGone(c: Conn, e: Env)
    requires Fits(c, e) && !c.closed && !c.lo.Open?
    ensures AnswerFits(c, e, 0) && AnswerFits(Handled(c, e, 0), e, 1)
    ensures var (c1, d) := (Handled(c, e, 0), Handled(Handled(c, e, 0), e, 1));
            && !c1.lo.Open? && c1.output == c.output && !d.lo.Open?
            && Pass(c, e) == d.(closed := d.closed || !d.re.Open?)
  {
    PassInFour(c, e);
  }

  lemma RemoteGone(c: Conn, e: Env)
    requires Fits(c, e) && !c.closed && !c.re.Open?
    ensures AnswerFits(c, e, 2) && AnswerFits(Handled(c, e, 2), e, 3)
    ensures var (c1, d) := (Handled(c, e, 2), Handled(Handled(c, e, 2), e, 3));
            && !c1.re.Open? && c1.input == c.input && !d.re.Open?
            && Pass(c, e) == d.(closed := d.closed || !d.lo.Open?)
  {
    PassInFour(c, e);
  }

  lemma LocalDrainPass(c: Conn, e: Env)
    requires Inv(c) && !c.closed && Fits(c, e) && !c.re.Open? && c.lo.Open? && LocalTakes(c, e)
    ensures var d := Pass(c, e);
            d.closed || (d.lo.Open? && !d.re.Open? && FlowOk(d.input) && |Pending(d.input)| < |Pending(c.input)|)
  {
    RemoteGone(c, e);
    HandledOk(c, e, 2);
    var c1 := Handled(c, e, 2);
    if c1.lo.Open? {
      LocalWriteDrains(c1, e.toLo);
    }
  }

  lemma ClosedStays(cs: seq<Conn>, es: seq<Env>, j: nat, k: nat)
    requires Run(cs, es) && j <= k < |cs| && cs[j].closed
    ensures cs[k] == cs[j]
  {
    if j < k {
      ClosedStays(cs, es, j, k - 1);
      assert cs[k - 1 + 1] == Pass(cs[k - 1], es[k - 1]);
    }
  }

  /** Once the local side is gone, the connection ends after at most one pass for each byte still
      held and one more, if the remote side takes something in each. */
  lemma {:induction false} RemoteDrains(cs: seq<Conn>, es: seq<Env>, j: nat, k: nat)
    requires Run(cs, es) && j <= k < |cs| && !cs[j].lo.Open? && (cs[j].re.Open? || cs[j].closed)
    requires forall i :: j <= i < k ==> RemoteTakes(cs[i], es[i])
    requires cs[j].output.wpos <= |cs[j].output.held| && k - j > |Pending(cs[j].output)|
    ensures cs[k].closed
    ensures cs[k].re.ByPeer? || cs[k].output.delivered == cs[k].output.received
    decreases k - j
  {
    RunInv(cs, es, k);
    FlowMeans(cs[k].output);
    if cs[j].closed {
      ClosedStays(cs, es, j, k);
    } else {
      RunInv(cs, es, j);
      assert cs[j + 1] == Pass(cs[j], es[j]);
      RemoteDrainPass(cs[j], es[j]);
      if cs[j + 1].closed {
        ClosedStays(cs, es, j + 1, k);
      } else {
        RemoteDrains(cs, es, j + 1, k);
      }
    }
  }

  /** The same once the remote side is gone. */
  lemma {:induction false} LocalDrains(cs: seq<Conn>, es: seq<Env>, j: nat, k: nat)
    requires Run(cs, es) && j <= k < |cs| && !cs[j].re.Open? && (cs[j].lo.Open? || cs[j].closed)
    requires forall i :: j <= i < k ==> LocalTakes(cs[i], es[i])
    requires cs[j].input.wpos <= |cs[j].input.held| && k - j > |Pending(cs[j].input)|
    ensures cs[k].closed
    ensures cs[k].lo.ByPeer? || cs[k].input.delivered == cs[k].input.received
    decreases k - j
  {
    RunInv(cs, es, k);
    FlowMeans(cs[k].input);
    if cs[j].closed {
      ClosedStays(cs, es, j, k);
    } else {
      RunInv(cs, es, j);
      assert cs[j + 1] == Pass(cs[j], es[j]);
      LocalDrainPass(cs[j], es[j]);
      if cs[j + 1].closed {
        ClosedStays(cs, es, j + 1, k);
      } else {
        LocalDrains(cs, es, j + 1, k);
      }
    }
  }

  // ---------- What select is asked ----------

  datatype Watch = Watch(reRead: bool, reWrite: bool, loRead: bool, loWrite: bool)

  function Watched(c: Conn): Watch {
    Watch(c.re.Open? && |c.input.held| < BufferSpace,
          c.re.Open? && (c.closing || c.output.wpos < |c.output.held|),
          c.lo.Open? && |c.output.held| < BufferSpace,
          c.lo.Open? && (c.closing || c.input.wpos < |c.input.held|))
  }

  /** A live connection is never forgotten: while both sockets are open each direction waits for
      one of its ends, a full buffer for the end that empties it; and once one socket is closed
      the other is watched for writing. */
  lemma NeverForgotten(cs: seq<Conn>, es: seq<Env>, k: nat)
    requires Run(cs, es) && k < |cs| && !cs[k].closed
    ensures var c, w := cs[k], Watched(cs[k]);
            && (c.re.Open? && c.lo.Open? ==> (w.reRead || w.loWrite) && (w.loRead || w.reWrite))
            && (c.re.Open? && !c.lo.Open? ==> w.reWrite) && (c.lo.Open? && !c.re.Open? ==> w.loWrite)
            && (c.re.Open? || c.lo.Open?)
            && (c.lo.Open? && (c.input.wpos < |c.input.held|) ==> w.loWrite)
            && (c.re.Open? && (c.output.wpos < |c.output.held|) ==> w.reWrite)
  {
    RunInv(cs, es, k);
  }
}
