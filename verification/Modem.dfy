/** APDUs to a card behind a modem (GenericModem.cpp). */
module Modems {
  import opened Bytes
  import opened AtCommands
  import opened AtInterface
  import Cards
  import opened Wires
  import opened SEInterfaces

  /** What a card behind the modem replies to a command: 1 to 258 bytes, or nothing. */
  type Remote = seq<byte> -> Option<seq<byte>>

  ghost predicate Replies(card: Remote) {
    forall apdu :: card(apdu).Some? ==> 1 <= |card(apdu).value| <= 258
  }

  /** What the modem writes for a command line: the reply to the command it reads there, or the error line. */
  ghost function Served(card: Remote, line: seq<byte>, before: seq<seq<byte>>, after: seq<seq<byte>>): seq<byte> {
    var apdu := ParseCommand(line);
    if apdu.Some? && card(apdu.value).Some? then
      Concat(before) + AnswerText(AnswerOf(card(apdu.value).value)) + (Concat(after) + OK_LINE)
    else Concat(before) + ERROR
  }

  class GenericModem {
    const at: ATInterface

    constructor (serial: Serial)
      ensures fresh(at) && at.serial == serial
    {
      at := new ATInterface(serial);
    }

    /**
     The reply of the card to exactly this command, through a modem that goes by the command line it is
     sent and may write other lines before the reply and before its final line.
     */
    method TransmitApdu(apdu: seq<byte>, response: array<byte>, ghost card: Remote,
                        ghost before: seq<seq<byte>>, ghost after: seq<seq<byte>>, ghost tail: seq<byte>)
      returns (ok: bool, responseLen: nat)
      requires |apdu| <= 260 && 258 <= response.Length && Replies(card)
      requires forall l :: l in before ==> FitsLine(l) && !(CSIM <= l) && !(ERROR <= l)
      requires forall l :: l in after ==> FitsLine(l) && !(OK_LINE <= l)
      requires Unread(at.serial.input) == Served(card, CommandLine(apdu), before, after) + tail
      modifies at.serial, response
      ensures ok == card(apdu).Some?
      ensures ok ==> responseLen == |card(apdu).value| && response[..responseLen] == card(apdu).value
      ensures at.serial.output == old(at.serial.output) + CommandLine(apdu)
      ensures Unread(at.serial.input) == tail
    {
      hide Unread, Concat, AnswerText, CommandLine, FitsLine, ParseCommand, Hex, Unhex, ProperAnswer;
      CommandRoundTrip(apdu);
      ghost var reply, a: Option<AnswerLine> := card(apdu), None;
      if reply.Some? {
        a := Some(AnswerOf(reply.value));
        AnswerFits(reply.value);
        ghost var text := AnswerText(a.value);
        assert Concat(before) + text + (Concat(after) + OK_LINE) + tail == Concat(before) + text + (Concat(after) + OK_LINE + tail);
      }
      ok, responseLen := at.SendATCSIM(apdu, response, before, a, after, tail);
    }

    /**
     The terminal's interface on top of the modem: with the card of the wire behind it, this does what
     the interface's own device driver does, for commands that fit the modem's line.
     */
    method Carry(seiface: SEInterface, ghost before: seq<seq<byte>>, ghost after: seq<seq<byte>>, ghost tail: seq<byte>) returns (ok: bool)
      requires seiface.Valid() && 4 <= seiface.apduLen <= 260 && {at, at.serial} !! seiface.Repr
      requires forall l :: l in before ==> FitsLine(l) && !(CSIM <= l) && !(ERROR <= l)
      requires forall l :: l in after ==> FitsLine(l) && !(OK_LINE <= l)
      requires Unread(at.serial.input) == Served(Behind(seiface.wire), CommandLine(seiface.Command()), before, after) + tail
      modifies seiface, seiface.apduResponse, at.serial
      ensures seiface.Valid() && seiface.apduLen == old(seiface.apduLen)
      ensures var x := old(Exchange(seiface.wire, seiface.Command()));
              seiface.wire == x.wire && ok == x.reply.Some? && (ok ==> seiface.Response() == x.reply.value)
      ensures at.serial.output == old(at.serial.output) + CommandLine(old(seiface.Command())) && Unread(at.serial.input) == tail
    {
      hide Unread, Concat, Served, CommandLine, FitsLine, Exchange;
      BehindReplies(seiface.wire);
      var command := seiface.apdu[..seiface.apduLen];
      var len;
      ok, len := TransmitApdu(command, seiface.apduResponse, Behind(seiface.wire), before, after, tail);
      seiface.wire := Exchange(seiface.wire, command).wire;
      if ok {
        seiface.apduResponseLen := len;
      }
    }
  }

  /** The card of the wire, as what is behind the modem. */
  function Behind(w: Wire): Remote {
    apdu => if |apdu| < 4 then None else Exchange(w, apdu).reply
  }

  lemma BehindReplies(w: Wire)
    ensures Replies(Behind(w))
  {
    hide Cards.Send;
  }
}
