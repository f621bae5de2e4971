/**
  The handlers of rinetd on the fields of a connection slot, and the pass over all slots.
*/
module RelaySlots {
  import opened Common
  import opened Relay

  class Slot {
    const coInput: array<Byte>
    const coOutput: array<Byte>
    var inputRPos: nat
    var inputWPos: nat
    var outputRPos: nat
    var outputWPos: nat
    var coClosed: bool
    var coClosing: bool
    var reClosed: bool
    var loClosed: bool
    var bytesInput: nat
    var bytesOutput: nat
    var coLog: Log
    // what the outside saw
    ghost var fromRe: seq<Byte>
    ghost var toLo: seq<Byte>
    ghost var fromLo: seq<Byte>
    ghost var toRe: seq<Byte>
    ghost var reEnd: End
    ghost var loEnd: End
    ghost var reCloses: nat
    ghost var loCloses: nat
    ghost var logged: seq<Log>

    ghost predicate Valid()
      reads this
    {
      && coInput.Length == coOutput.Length == BufferSpace && coInput != coOutput
      && inputWPos <= inputRPos <= BufferSpace && outputWPos <= outputRPos <= BufferSpace
      && (reClosed <==> !reEnd.Open?) && (loClosed <==> !loEnd.Open?)
    }

    ghost function Value(): Conn
      requires Valid()
      reads this, coInput, coOutput
    {
      Conn(Flow(fromRe, toLo, coInput[..inputRPos], inputWPos), Flow(fromLo, toRe, coOutput[..outputRPos], outputWPos),
           reEnd, loEnd, coClosing, coClosed, reCloses, loCloses, bytesInput, bytesOutput, coLog, logged)
    }

    /** A slot with its buffers, as for an accepted and locally opened connection. */
    constructor ()
      ensures Valid() && Value() == Established() && fresh(this) && fresh(coInput) && fresh(coOutput)
    {
      coInput := new Byte[BufferSpace](_ => 0);
      coOutput := new Byte[BufferSpace](_ => 0);
      inputRPos, inputWPos, outputRPos, outputWPos := 0, 0, 0, 0;
      coClosed, coClosing, reClosed, loClosed := false, false, false, false;
      bytesInput, bytesOutput, coLog := 0, 0, LocalClosedFirst;
      fromRe, toLo, fromLo, toRe, logged := [], [], [], [], [];
      reEnd, loEnd, reCloses, loCloses := Open, Open, 0, 0;
    }

    /** recv into the free end of a buffer. */
    static method Receive(buffer: array<Byte>, at: nat, bytes: seq<Byte>)
      requires at + |bytes| <= buffer.Length
      modifies buffer
      ensures buffer[..at + |bytes|] == old(buffer[..at]) + bytes
    {
      for k := 0 to |bytes|
        invariant buffer[..at + k] == old(buffer[..at]) + bytes[..k]
      {
        buffer[at + k] := bytes[k];
        assert buffer[..at + k + 1] == buffer[..at + k] + [bytes[k]];
        assert bytes[..k + 1] == bytes[..k] + [bytes[k]];
      }
    }

    method HandleCloseFromRemote()
      requires Valid()
      modifies this
      ensures Valid() && Value() == CloseFromRemote(old(Value()))
    {
      coClosing := true;
      reCloses, reEnd := reCloses + 1, ByPeer;
      reClosed := true;
      if !loClosed {
        coLog := RemoteClosedFirst;
      }
    }

    method HandleCloseFromLocal()
      requires Valid()
      modifies this
      ensures Valid() && Value() == CloseFromLocal(old(Value()))
    {
      coClosing := true;
      loCloses, loEnd := loCloses + 1, ByPeer;
      loClosed := true;
      if !reClosed {
        coLog := LocalClosedFirst;
      }
    }

    method HandleRemoteRead(r: Recv)
      requires Valid() && RecvFits(Value().input, r)
      modifies this, coInput
      ensures Valid() && Value() == RemoteRead(old(Value()), r)
    {
      if BufferSpace == inputRPos {
        return;
      }
      match r
      case Eof =>
        HandleCloseFromRemote();
      case ReadLater =>
      case ReadFailed =>
        HandleCloseFromRemote();
      case Data(bytes) =>
        Receive(coInput, inputRPos, bytes);
        fromRe := fromRe + bytes;
        bytesInput := bytesInput + |bytes|;
        inputRPos := inputRPos + |bytes|;
    }

    method HandleLocalRead(r: Recv)
      requires Valid() && RecvFits(Value().output, r)
      modifies this, coOutput
      ensures Valid() && Value() == LocalRead(old(Value()), r)
    {
      if BufferSpace == outputRPos {
        return;
      }
      match r
      case Eof =>
        HandleCloseFromLocal();
      case ReadLater =>
      case ReadFailed =>
        HandleCloseFromLocal();
      case Data(bytes) =>
        Receive(coOutput, outputRPos, bytes);
        fromLo := fromLo + bytes;
        outputRPos := outputRPos + |bytes|;
    }

    /** What follows a send that took got bytes of coOutput. */
    method SendOutput(got: nat)
      requires Valid() && outputWPos + got <= outputRPos
      modifies this`outputWPos, this`outputRPos, this`toRe, this`bytesOutput
      ensures Valid()
        && Value() == old(Value()).(output := Drained(old(Value().output), got), bytesOutput := old(bytesOutput) + got)
    {
      toRe := toRe + coOutput[..outputRPos][outputWPos..outputWPos + got];
      outputWPos := outputWPos + got;
      if outputWPos == outputRPos {
        outputWPos := 0;
        outputRPos := 0;
      }
      bytesOutput := bytesOutput + got;
    }

    method HandleRemoteWrite(s: Sent)
      requires Valid() && SentFits(Value().output, s)
      modifies this
      ensures Valid() && Value() == RemoteWrite(old(Value()), s)
    {
      if coClosing && outputWPos == outputRPos {
        reClosed := true;
        coClosed := true;
        logged := logged + [coLog];
        reCloses, reEnd := reCloses + 1, ByRelay;
        return;
      }
      match s
      case WriteLater =>
      case WriteFailed =>
        HandleCloseFromRemote();
      case Accepted(got) =>
        SendOutput(got);
    }

    /** What follows a send that took got bytes of coInput. */
    method SendInput(got: nat)
      requires Valid() && inputWPos + got <= inputRPos
      modifies this`inputWPos, this`inputRPos, this`toLo
      ensures Valid() && Value() == old(Value()).(input := Drained(old(Value().input), got))
    {
      toLo := toLo + coInput[..inputRPos][inputWPos..inputWPos + got];
      inputWPos := inputWPos + got;
      if inputWPos == inputRPos {
        inputWPos := 0;
        inputRPos := 0;
      }
    }

    method HandleLocalWrite(s: Sent)
      requires Valid() && SentFits(Value().input, s)
      modifies this
      ensures Valid() && Value() == LocalWrite(old(Value()), s)
    {
      if coClosing && inputWPos == inputRPos {
        loClosed := true;
        coClosed := true;
        logged := logged + [coLog];
        loCloses, loEnd := loCloses + 1, ByRelay;
        return;
      }
      match s
      case WriteLater =>
      case WriteFailed =>
        HandleCloseFromLocal();
      case Accepted(got) =>
        SendInput(got);
    }

    /** The interest a slot has in its sockets, before select. */
    method Interest() returns (w: Watch)
      requires Valid()
      ensures w == if coClosed then Watch(false, false, false, false) else Watched(Value())
    {
      w := Watch(false, false, false, false);
      if coClosed {
        return;
      }
      if coClosing {
        if !reClosed {
          w := w.(reWrite := true);
        }
        if !loClosed {
          w := w.(loWrite := true);
        }
      }
      if !reClosed && inputRPos < BufferSpace {
        w := w.(reRead := true);
      }
      if !reClosed && outputWPos < outputRPos {
        w := w.(reWrite := true);
      }
      if !loClosed && outputRPos < BufferSpace {
        w := w.(loRead := true);
      }
      if !loClosed && inputWPos < inputRPos {
        w := w.(loWrite := true);
      }
    }

    /** The two handlers of the remote socket. */
    method ServeRemote(e: Env)
      requires Valid() && AnswerFits(Value(), e, 0) && AnswerFits(Handled(Value(), e, 0), e, 1)
      modifies this, coInput
      ensures Valid() && Value() == Handled(Handled(old(Value()), e, 0), e, 1)
    {
      if !reClosed && e.reRead {
        HandleRemoteRead(e.fromRe);
      }
      if !reClosed && e.reWrite {
        HandleRemoteWrite(e.toRe);
      }
    }

    /** The two handlers of the local socket. */
    method ServeLocal(e: Env)
      requires Valid() && AnswerFits(Value(), e, 2) && AnswerFits(Handled(Value(), e, 2), e, 3)
      modifies this, coOutput
      ensures Valid() && Value() == Handled(Handled(old(Value()), e, 2), e, 3)
    {
      if !loClosed && e.loRead {
        HandleLocalRead(e.fromLo);
      }
      if !loClosed && e.loWrite {
        HandleLocalWrite(e.toLo);
      }
    }

    /** What the loop after select does with one slot. */
    method Serve(e: Env)
      requires Valid() && Fits(Value(), e)
      modifies this, coInput, coOutput
      ensures Valid() && Value() == Pass(old(Value()), e)
    {
      if coClosed {
        return;
      }
      PassInFour(Value(), e);
      ServeRemote(e);
      ServeLocal(e);
      if loClosed && reClosed {
        coClosed := true;
      }
    }
  }

  /** Two slots that share no buffer. */
  ghost predicate Separate(a: Slot, b: Slot) {
    && a != b && a.coInput != b.coInput && a.coInput != b.coOutput
    && a.coOutput != b.coInput && a.coOutput != b.coOutput
  }

  ghost predicate Apart(slots: seq<Slot>) {
    forall i, j :: 0 <= i < |slots| && 0 <= j < |slots| && i != j ==> Separate(slots[i], slots[j])
  }

  ghost function Buffers(slots: seq<Slot>): set<object> {
    (set i | 0 <= i < |slots| :: slots[i].coInput) + (set i | 0 <= i < |slots| :: slots[i].coOutput)
  }

  ghost predicate Holds(slot: Slot, c: Conn)
    reads slot, slot.coInput, slot.coOutput
  {
    slot.Valid() && slot.Value() == c
  }

  /** The pass over all slots treats each one alone. */
  method SelectPass(slots: seq<Slot>, es: seq<Env>)
    requires Apart(slots) && |es| == |slots|
    requires forall i :: 0 <= i < |slots| ==> slots[i].Valid() && Fits(slots[i].Value(), es[i])
    modifies slots, Buffers(slots)
    ensures forall i :: 0 <= i < |slots| ==> slots[i].Valid() && slots[i].Value() == Pass(old(slots[i].Value()), es[i])
  {
    ghost var was := ValuesOf(slots, es);
    ghost var next := Passed(was, es);
    for k := 0 to |slots|
      invariant forall i :: 0 <= i < k ==> Holds(slots[i], next[i])
      invariant forall i :: k <= i < |slots| ==> Holds(slots[i], was[i])
    {
      assert Holds(slots[k], was[k]);
      slots[k].Serve(es[k]);
      assert Holds(slots[k], next[k]);
      assert forall i :: 0 <= i < |slots| && i != k ==> Separate(slots[i], slots[k]);
    }
  }

  ghost method ValuesOf(slots: seq<Slot>, es: seq<Env>) returns (was: seq<Conn>)
    requires |es| == |slots|
    requires forall i :: 0 <= i < |slots| ==> slots[i].Valid() && Fits(slots[i].Value(), es[i])
    ensures |was| == |slots|
    ensures forall i :: 0 <= i < |slots| ==> Holds(slots[i], was[i]) && Fits(was[i], es[i])
  {
    was := [];
    for k := 0 to |slots|
      invariant |was| == k && forall i :: 0 <= i < k ==> Holds(slots[i], was[i]) && Fits(was[i], es[i])
    {
      was := was + [slots[k].Value()];
    }
  }

  ghost function Passed(cs: seq<Conn>, es: seq<Env>): (next: seq<Conn>)
    requires |es| == |cs| && forall i :: 0 <= i < |cs| ==> Fits(cs[i], es[i])
    ensures |next| == |cs| && forall i :: 0 <= i < |cs| ==> next[i] == Pass(cs[i], es[i])
  {
    seq(|cs|, i requires 0 <= i < |cs| => Pass(cs[i], es[i]))
  }
}
