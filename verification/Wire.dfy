/**
 The T=0 side of a card: before it delivers the outcome of a command it may answer a finite number
 of times with 6Cxx (repeat the command with this Le) or 61xx (fetch the data with GET RESPONSE),
 and it delivers only to a terminal that sends exactly the command the standard asks for next.
 */
module Wires {
  import opened Bytes
  import opened Cards

  /** A command under way: the next command expected, the procedure answers still to come, the outcome. */
  datatype Pending = Pending(next: seq<byte>, procs: seq<Procedure>, answer: Answer)

  datatype Wire = Wire(card: Card, pending: Option<Pending>)

  function Shown(p: Procedure): seq<byte> {
    match p
    case WrongLength(la) => [0x6C, la]
    case MoreData(la) => [0x61, la]
  }

  /** The command that follows a procedure answer, on the same channel. */
  function Resumed(apdu: seq<byte>, p: Procedure): seq<byte>
    requires |apdu| >= 4
  {
    match p
    case WrongLength(la) => apdu[..4] + [la]
    case MoreData(la) => [apdu[0] % 4, GET_RESPONSE, 0x00, 0x00, la]
  }

  /** 6Cxx corrects Le, so it answers only commands that have no data field. */
  predicate Proper(apdu: seq<byte>, procs: seq<Procedure>) {
    |apdu| <= 5 || procs == [] || procs[0].MoreData?
  }

  datatype Exchanged = Exchanged(wire: Wire, reply: Option<seq<byte>>)

  function Deliver(c: Card, apdu: seq<byte>, procs: seq<Procedure>, answer: Answer): Exchanged
    requires |apdu| >= 4
  {
    if procs == [] then Exchanged(Wire(c, None), Some(answer))
    else Exchanged(Wire(c, Some(Pending(Resumed(apdu, procs[0]), procs[1..], answer))), Some(Shown(procs[0])))
  }

  /** One command and its immediate answer; no answer when the command is lost. */
  function Exchange(w: Wire, apdu: seq<byte>): Exchanged
    requires |apdu| >= 4
  {
    if w.pending.Some? && w.pending.value.next == apdu then
      Deliver(w.card, apdu, w.pending.value.procs, w.pending.value.answer)
    else
      var now := w.card.Now();
      var s := Send(w.card, apdu);
      if s.answer.None? then Exchanged(Wire(s.card, None), None)
      else Deliver(s.card, apdu, if Proper(apdu, now.procs) then now.procs else [], s.answer.value)
  }

  /** What the terminal must send next, by the bytes of the answer it has just received. */
  lemma NextAwaited(w: Wire, apdu: seq<byte>, la: byte)
    requires |apdu| >= 4
    ensures var x := Exchange(w, apdu);
            && (x.reply == Some([0x61, la]) ==>
                  x.wire.pending.Some? && x.wire.pending.value.next == [apdu[0] % 4, 0xC0, 0x00, 0x00, la])
            && (x.reply == Some([0x6C, la]) ==>
                  x.wire.pending.Some? && x.wire.pending.value.next == [apdu[0], apdu[1], apdu[2], apdu[3], la])
            && (x.reply.Some? && x.wire.pending.Some? ==> x.reply.value in {[0x61, x.reply.value[1]], [0x6C, x.reply.value[1]]})
  {
    hide Send;
  }
}
