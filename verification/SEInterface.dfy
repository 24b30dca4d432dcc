/** The terminal's end of the card interface (SEInterface.cpp). */
module SEInterfaces {
  import opened Bytes
  import opened Cards
  import opened Wires

  class SEInterface {
    const apdu: array<byte>
    const apduResponse: array<byte>
    var apduLen: nat
    var apduResponseLen: nat
    var wire: Wire  // the device `transmitApdu` talks to

    ghost const Repr: set<object> := {this, apdu, apduResponse}

    ghost predicate Valid()
      reads this
    {
      && apdu.Length == 262 && apduResponse.Length == 258 && apdu != apduResponse
      && apduLen <= 262 && apduResponseLen <= 258
    }

    /** No command is under way. */
    ghost predicate Idle()
      reads this
    {
      Valid() && wire.pending.None?
    }

    ghost function Command(): seq<byte>
      requires Valid()
      reads this, apdu
    {
      apdu[..apduLen]
    }

    ghost function Response(): seq<byte>
      requires Valid()
      reads this, apduResponse
    {
      apduResponse[..apduResponseLen]
    }

    /** The interface after the command sequence whose outcome is `s`. */
    ghost predicate Holds(s: Sent, ok: bool)
      reads this, apduResponse
    {
      && Idle() && wire.card == s.card
      && ok == s.answer.Some?
      && (ok ==> Response() == s.answer.value)
    }

    constructor (card: Card)
      ensures Idle() && wire.card == card && fresh(Repr)
    {
      apdu := new byte[262];
      apduResponse := new byte[258];
      apduLen, apduResponseLen := 0, 0;
      wire := Wire(card, None);
    }

    /** The device driver: delivers the command buffer and stores the answer. */
    method TransmitApdu() returns (ok: bool)
      requires Valid() && 4 <= apduLen
      requires forall p :: wire.pending == Some(p) ==> p.next == Command()
      modifies this, apduResponse
      ensures Valid() && apduLen == old(apduLen)
      ensures var x := old(Exchange(wire, Command()));
              wire == x.wire && ok == x.reply.Some? && (ok ==> Response() == x.reply.value)
    {
      var x := Exchange(wire, apdu[..apduLen]);
      wire := x.wire;
      ok := x.reply.Some?;
      if ok {
        var reply := x.reply.value;
        apduResponseLen := |reply|;
        forall i | 0 <= i < |reply| {
          apduResponse[i] := reply[i];
        }
      }
    }

    /**
     Sends the command buffer, answering 6Cxx and 61xx from it until the card delivers the outcome.
     A resumed command (one the card is waiting for) delivers the outcome of the command it belongs to.
     */
    method Transmit() returns (ok: bool)
      requires Valid() && 4 <= apduLen
      requires forall p :: wire.pending == Some(p) ==> p.next == Command() && apduLen == 5
      modifies Repr
      ensures match old(wire).pending
              case None => Holds(Send(old(wire).card, old(Command())), ok)
              case Some(p) => Holds(Sent(old(wire).card, Some(p.answer)), ok)
      decreases wire.pending.None?, if wire.pending.None? then 0 else |wire.pending.value.procs|
    {
      ghost var command := Command();
      ok := TransmitApdu();
      if !ok {
        return;
      }
      if apduResponseLen == 2 && apduResponse[0] == 0x6C {
        apdu[4] := apduResponse[1];
        if apduLen < 5 {
          apduLen := 5;
        }
        assert Command() == command[..4] + [apduResponse[1]];
        ok := Transmit();
        return;
      }
      if apduResponseLen == 2 && apduResponse[0] == 0x61 {
        apdu[0] := apdu[0] % 4;
        apdu[1] := 0xC0;
        apdu[2] := 0x00;
        apdu[3] := 0x00;
        apdu[4] := apduResponse[1];
        apduLen := 5;
        assert Command() == [command[0] % 4, GET_RESPONSE, 0x00, 0x00, apduResponse[1]];
        ok := Transmit();
        return;
      }
    }

    method Transmit1(cla: byte, ins: byte, p1: byte, p2: byte) returns (ok: bool)
      requires Idle()
      modifies Repr
      ensures Holds(Send(old(wire).card, Case1(cla, ins, p1, p2)), ok)
    {
      apdu[0], apdu[1], apdu[2], apdu[3] := cla, ins, p1, p2;
      apduLen := 4;
      assert Command() == Case1(cla, ins, p1, p2);
      ok := Transmit();
    }

    method Transmit2(cla: byte, ins: byte, p1: byte, p2: byte, le: byte) returns (ok: bool)
      requires Idle()
      modifies Repr
      ensures Holds(Send(old(wire).card, Case2(cla, ins, p1, p2, le)), ok)
    {
      apdu[0], apdu[1], apdu[2], apdu[3], apdu[4] := cla, ins, p1, p2, le;
      apduLen := 5;
      assert Command() == Case2(cla, ins, p1, p2, le);
      ok := Transmit();
    }

    method Transmit3(cla: byte, ins: byte, p1: byte, p2: byte, data: seq<byte>) returns (ok: bool)
      requires Idle() && |data| <= 257
      modifies Repr
      ensures Holds(Send(old(wire).card, Case3(cla, ins, p1, p2, data)), ok)
    {
      apdu[0], apdu[1], apdu[2], apdu[3], apdu[4] := cla, ins, p1, p2, |data| % 256;
      forall i | 0 <= i < |data| {
        apdu[5 + i] := data[i];
      }
      apduLen := 5 + |data|;
      assert Command() == Case3(cla, ins, p1, p2, data);
      ok := Transmit();
    }

    method Transmit4(cla: byte, ins: byte, p1: byte, p2: byte, data: seq<byte>, le: byte) returns (ok: bool)
      requires Idle() && |data| <= 256
      modifies Repr
      ensures Holds(Send(old(wire).card, Case4(cla, ins, p1, p2, data, le)), ok)
    {
      apdu[0], apdu[1], apdu[2], apdu[3], apdu[4] := cla, ins, p1, p2, |data| % 256;
      forall i | 0 <= i < |data| {
        apdu[5 + i] := data[i];
      }
      apdu[5 + |data|] := le;
      apduLen := 5 + |data| + 1;
      assert Command() == Case4(cla, ins, p1, p2, data, le);
      ok := Transmit();
    }

    /** The status word of the last answer, 0 when there is none. */
    method GetStatusWord() returns (sw: nat)
      requires Valid()
      ensures sw == if |Response()| >= 2 then Sw(Response()) else 0
    {
      sw := 0;
      if apduResponseLen >= 2 {
        sw := Word(apduResponse[apduResponseLen - 2], apduResponse[apduResponseLen - 1]);
      }
    }

    method GetResponseLength() returns (len: nat)
      requires Valid()
      ensures len == if |Response()| > 2 then |Response()| - 2 else 0
    {
      len := 0;
      if apduResponseLen > 2 {
        len := apduResponseLen - 2;
      }
    }

    /** Copies the data of the last answer to `data[at..]` and nothing else; only reports its length when `data` is null. */
    method GetResponse(data: array?<byte>, at: nat) returns (len: nat)
      requires Valid()
      requires data != null ==> data != apduResponse && at + |Response()| <= data.Length + 2
      modifies data
      ensures len == if |Response()| > 2 then |Response()| - 2 else 0
      ensures data != null ==>
        forall i :: 0 <= i < data.Length ==>
          data[i] == if at <= i < at + len then Response()[i - at] else old(data[i])
      ensures data != null && len > 0 ==>
        && data[at..at + len] == Data(Response())
        && data[..at] == old(data[..at]) && data[at + len..] == old(data[at + len..])
    {
      len := 0;
      if apduResponseLen > 2 {
        len := apduResponseLen - 2;
        if data != null {
          forall i | 0 <= i < len {
            data[at + i] := apduResponse[i];
          }
        }
      }
    }
  }
}
