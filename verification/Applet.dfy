/** An applet on the card and the logical channel it is reached through (Applet.cpp). */
module Applets {
  import opened Bytes
  import opened Cards
  import opened Wires
  import opened Channels
  import opened SEInterfaces
  import opened Chunks

  const MAX_CHANNEL := 13

  /** Closes channels 1 to 13, whatever the card answers. */
  method CloseAllChannels(seiface: SEInterface)
    requires seiface.Idle()
    modifies seiface.Repr
    ensures seiface.Idle()
    ensures var c, d := old(seiface.wire.card), seiface.wire.card;
            && Counted(c, d) && d.apps == c.apps
            && d.open.Keys <= c.open.Keys
            && (forall k :: k in d.open ==> d.open[k] == c.open[k])
            && (ClosesSucceed(c) ==> d.open.Keys == set k | k in c.open.Keys && !(1 <= k <= MAX_CHANNEL))
  {
    ghost var start := seiface.wire.card;
    Uncounted(start);
    var i := 1;
    while i <= MAX_CHANNEL
      invariant 1 <= i <= MAX_CHANNEL + 1
      invariant seiface.Idle()
      invariant var c, d := old(seiface.wire.card), seiface.wire.card;
                && Counted(c, d) && d.apps == c.apps
                && d.open.Keys <= c.open.Keys
                && (forall k :: k in d.open ==> d.open[k] == c.open[k])
                && (ClosesSucceed(c) ==> d.open.Keys == set k | k in c.open.Keys && !(1 <= k < i))
    {
      ghost var now := seiface.wire.card;
      SendClose(now, i);
      SendCounted(now, Close(i));
      CountedMore(start, now, Send(now, Close(i)).card);
      var ok := seiface.Transmit2(0x00, MANAGE_CHANNEL, 0x80, i, 0x01);
      i := i + 1;
    }
  }

  class Applet {
    var seiface: SEInterface?
    const aid: seq<byte>
    var channel: byte
    var isSelected: bool

    ghost predicate Valid()
      reads this, if seiface == null then {} else {seiface}
    {
      && 0 < |aid| < 256
      && (isSelected ==> seiface != null)
      && (seiface != null ==> seiface.Idle())
    }

    /** What the applet's methods modify besides the applet itself. */
    ghost function Device(): set<object>
      reads this
    {
      if seiface == null then {} else seiface.Repr
    }

    ghost function View(): View
      reads this
    {
      Channels.View(aid, channel, isSelected)
    }

    ghost function Card(): Card
      requires seiface != null
      reads this, seiface
    {
      seiface.wire.card
    }

    /** How many commands have been lost so far. */
    ghost function Losses(): int
      requires seiface != null
      reads this, seiface
    {
      Card().Losses()
    }

    constructor (aid: seq<byte>)
      requires 0 < |aid| < 256
      ensures Valid() && seiface == null && !isSelected && this.aid == aid
    {
      this.aid := aid;
      seiface := null;
      channel := 0;
      isSelected := false;
    }

    method Init(seiface: SEInterface)
      requires Valid() && seiface.Idle()
      modifies this
      ensures Valid() && this.seiface == seiface && View() == old(View())
    {
      this.seiface := seiface;
    }

    /** Selects the applet on a logical channel of its own. */
    method Select() returns (ok: bool)
      requires Valid()
      modifies this, Device()
      ensures Valid() && seiface == old(seiface)
      ensures seiface == null ==> !ok && View() == old(View())
      ensures seiface != null ==> Outcome(Card(), View(), ok) == old(Selected(Card(), View()))
    {
      if seiface != null {
        ghost var c, v := Card(), View();
        var closed := Deselect();
        ghost var d := Deselected(c, v);
        SendOpen(d.card);
        var offered := seiface.Transmit2(0x00, MANAGE_CHANNEL, 0x00, 0x00, 0x01);
        if offered {
          var sw := seiface.GetStatusWord();
          if sw == OK {
            if seiface.apduResponseLen > 2 {
              channel := seiface.apduResponse[0];
            }
            ghost var e := Card();
            ok := seiface.Transmit3(OrBytes(0x00, channel), SELECT, 0x04, 0x00, aid);
            assert seiface.Holds(Send(e, SelectByName(channel, aid)), ok);
            if ok {
              sw := seiface.GetStatusWord();
              if sw == OK || sw / 256 == 0x61 {
                isSelected := true;
                return true;
              }
            }
            ok := seiface.Transmit2(0x00, MANAGE_CHANNEL, 0x80, channel, 0x01);
          }
        }
      }
      return false;
    }

    /** Closes the applet's channel; the applet stays selected when the card does not confirm. */
    method Deselect() returns (ok: bool)
      requires Valid()
      modifies this`isSelected, Device()
      ensures Valid() && seiface == old(seiface)
      ensures seiface == null ==> ok && View() == old(View())
      ensures seiface != null ==> Outcome(Card(), View(), ok) == old(Deselected(Card(), View()))
    {
      if seiface != null {
        if isSelected {
          var closed := seiface.Transmit2(0x00, MANAGE_CHANNEL, 0x80, channel, 0x01);
          if closed {
            var sw := seiface.GetStatusWord();
            if sw == OK {
              isSelected := false;
            }
          }
        }
      }
      return !isSelected;
    }

    // ---- Commands to the selected application ----

    /** The applet's command went out as `apdu` to the card `c`, and the interface holds its outcome. */
    ghost predicate Sends(c: Card, ok: bool, apdu: seq<byte>)
      requires |apdu| >= 4 && seiface != null
      reads this, seiface, seiface.apduResponse
    {
      Valid() && seiface.Holds(Send(c, apdu), ok)
    }

    /** What a command modifies: nothing while the applet is not selected. */
    ghost function Session(): set<object>
      reads this
    {
      if isSelected then Device() else {}
    }

    method Transmit1(cla: byte, ins: byte, p1: byte, p2: byte) returns (ok: bool)
      requires Valid()
      modifies Session()
      ensures Valid() && if isSelected then Sends(old(Card()), ok, Case1(OrBytes(cla, channel), ins, p1, p2)) else !ok
    {
      ok := false;
      if isSelected {
        ok := seiface.Transmit1(OrBytes(cla, channel), ins, p1, p2);
      }
    }

    method Transmit2(cla: byte, ins: byte, p1: byte, p2: byte, le: byte) returns (ok: bool)
      requires Valid()
      modifies Session()
      ensures Valid() && if isSelected then Sends(old(Card()), ok, Case2(OrBytes(cla, channel), ins, p1, p2, le)) else !ok
    {
      ok := false;
      if isSelected {
        ok := seiface.Transmit2(OrBytes(cla, channel), ins, p1, p2, le);
      }
    }

    method Transmit3(cla: byte, ins: byte, p1: byte, p2: byte, data: seq<byte>) returns (ok: bool)
      requires Valid() && |data| <= 257
      modifies Session()
      ensures Valid() && if isSelected then Sends(old(Card()), ok, Case3(OrBytes(cla, channel), ins, p1, p2, data)) else !ok
    {
      ok := false;
      if isSelected {
        ok := seiface.Transmit3(OrBytes(cla, channel), ins, p1, p2, data);
      }
    }

    method Transmit4(cla: byte, ins: byte, p1: byte, p2: byte, data: seq<byte>, le: byte) returns (ok: bool)
      requires Valid() && |data| <= 256
      modifies Session()
      ensures Valid() && if isSelected then Sends(old(Card()), ok, Case4(OrBytes(cla, channel), ins, p1, p2, data, le)) else !ok
    {
      ok := false;
      if isSelected {
        ok := seiface.Transmit4(OrBytes(cla, channel), ins, p1, p2, data, le);
      }
    }

    method GetStatusWord() returns (sw: nat)
      requires Valid()
      ensures sw == if isSelected && |seiface.Response()| >= 2 then Sw(seiface.Response()) else 0
    {
      sw := 0;
      if isSelected {
        sw := seiface.GetStatusWord();
      }
    }

    method GetResponseLength() returns (len: nat)
      requires Valid()
      ensures len == if isSelected && |seiface.Response()| > 2 then |seiface.Response()| - 2 else 0
    {
      len := 0;
      if isSelected {
        len := seiface.GetResponseLength();
      }
    }

    method GetResponse(data: array?<byte>, at: nat) returns (len: nat)
      requires Valid()
      requires data != null && isSelected ==> data != seiface.apduResponse && at + |seiface.Response()| <= data.Length + 2
      modifies data
      ensures len == if isSelected && |seiface.Response()| > 2 then |seiface.Response()| - 2 else 0
      ensures data != null ==>
        forall i :: 0 <= i < data.Length ==>
          data[i] == if at <= i < at + len then seiface.Response()[i - at] else old(data[i])
      ensures data != null && len > 0 ==>
        && data[at..at + len] == Data(seiface.Response())
        && data[..at] == old(data[..at]) && data[at + len..] == old(data[at + len..])
    {
      len := 0;
      if isSelected {
        len := seiface.GetResponse(data, at);
      }
    }

    // ---- Files of the selected application ----

    /** The applet is selected on an open channel of its own application. */
    ghost predicate Ready()
      reads this, if seiface == null then {} else {seiface}
    {
      Valid() && isSelected && Sound(Card(), View())
    }

    /** The applet is in a session on its channel, to which it has only sent commands since the card was `c`. */
    ghost predicate Following(c: Card)
      reads this, if seiface == null then {} else {seiface}
    {
      && Ready() && Undisturbed(c, Card(), channel)
      && c.Losses() <= Losses() && (Steady(c) ==> Steady(Card()) && c.Losses() == Losses())
    }

    /** Moreover the current file of the channel is `f`. */
    ghost predicate Reading(c: Card, f: EF)
      reads this, if seiface == null then {} else {seiface}
    {
      Following(c) && Current(Card(), channel, f)
    }

    /** The interface holds a successful answer with these data bytes. */
    ghost predicate Answered(data: seq<byte>)
      reads this, if seiface == null then {} else {seiface, seiface.apduResponse}
    {
      Valid() && isSelected && seiface.Response() == data + [0x90, 0x00]
    }

    /** The response buffer starts with the data of the answer. */
    lemma AnswerStarts(data: seq<byte>)
      requires Answered(data)
      ensures data <= seiface.apduResponse[..] && 2 + |data| == seiface.apduResponseLen
    {
      var r, all := seiface.Response(), seiface.apduResponse[..];
      assert all[..seiface.apduResponseLen] == r;
      assert r[..|data|] == data;
      assert all[..|data|] == r[..|data|];
    }

    /** Its first byte is the first of the data, or of the status word behind no data. */
    lemma AnswersTemplate(data: seq<byte>)
      requires Answered(data)
      ensures seiface.apduResponse[0] == if data == [] then 0x90 else data[0]
    {
      AnswerStarts(data);
      assert seiface.apduResponse[0] == seiface.Response()[0];
    }

    lemma StartsFollowing()
      requires Ready()
      ensures Following(Card())
    {
    }

    lemma Follows(c: Card)
      requires Following(c)
      ensures Ready() && Undisturbed(c, Card(), channel) && Card().FilesOn(channel) == c.FilesOn(channel)
    {
    }

    /** The session goes on with one more command. */
    lemma Goes(c: Card, d: Card, ok: bool, apdu: seq<byte>)
      requires |apdu| >= 4 && isSelected && seiface != null && Sends(d, ok, apdu)
      requires var e := Send(d, apdu).card;
               && Undisturbed(c, e, channel) && Sound(e, View())
               && c.Losses() <= e.Losses() && (Steady(c) ==> Steady(e) && c.Losses() == e.Losses())
      ensures Following(c) && Card() == Send(d, apdu).card && ok == Send(d, apdu).answer.Some?
      ensures ok ==> seiface.Response() == Send(d, apdu).answer.value
    {
      hide Send, Undisturbed, Steady, Sound;
    }

    /**
     SELECT by path from the MF, asking for the FCP template; with an Le byte when `le` is given.
     `done` says that the command was delivered and reported success.
     */
    method SelectPath(path: seq<byte>, le: Option<byte>, ghost c: Card) returns (done: bool)
      requires Following(c) && |path| < 256
      modifies Device()
      ensures Following(c)
      ensures done ==> path in c.FilesOn(channel) && Reading(c, c.FilesOn(channel)[path]) && Answered(c.FilesOn(channel)[path].fcp)
      ensures var s := Send(old(Card()), PathCommand(channel, path, le)); Card() == s.card && done == s.Succeeded()
      ensures old(Losses()) <= Losses()
      ensures Losses() == old(Losses()) && path in c.FilesOn(channel) ==> done
      ensures Looked(old(Card()), Card())
    {
      hide Send, Steady, Looked;
      RoutedClass(0x00, channel);
      ghost var d := Card();
      if le.Some? {
        done := Transmit4(0x00, SELECT, 0x08, 0x04, path, le.value);
        SendSelectPath(d, channel, Case4(channel, SELECT, 0x08, 0x04, path, le.value), path);
        LookedOne(d, Case4(channel, SELECT, 0x08, 0x04, path, le.value));
      } else {
        done := Transmit3(0x00, SELECT, 0x08, 0x04, path);
        SendSelectPath(d, channel, Case3(channel, SELECT, 0x08, 0x04, path), path);
        LookedOne(d, Case3(channel, SELECT, 0x08, 0x04, path));
      }
      Onwards(c, d, Card(), channel);
      if done {
        var sw := GetStatusWord();
        done := sw == OK;
      }
    }

    /**
     READ BINARY of `le` bytes at `offset`, a 16-bit offset split over P1 and P2. `sent` says that the
     command was delivered, `done` that it also reported success, with `n` bytes.
     */
    method ReadBinary(offset: nat, le: byte, ghost c: Card, ghost f: EF) returns (sent: bool, done: bool, n: nat)
      requires Reading(c, f) && offset < 0x8000
      modifies Device()
      ensures Reading(c, f)
      ensures done ==>
        && 1 <= n <= (if le == 0 then 256 else le) && offset + n <= |f.content| && offset + le <= |f.content|
        && Answered(f.content[offset..offset + n])
        && (offset < f.whole && le > 0 ==> n == le)
      ensures sent && offset < |f.content| && offset + le <= |f.content| ==> done
      ensures var s := Send(old(Card()), ReadCommand(channel, offset, le));
              && Card() == s.card && sent == s.answer.Some? && done == s.Succeeded()
              && (sent ==> seiface.Response() == s.answer.value)
      ensures old(Losses()) <= Losses() && (sent <==> Losses() == old(Losses()))
      ensures Looked(old(Card()), Card())
    {
      hide Send, Steady, Undisturbed, Looked, Current;
      RoutedClass(0x00, channel);
      Follows(c);
      ghost var d := Card();
      ReadOnwards(c, d, channel, f, offset, le);
      sent := Transmit2(0x00, READ_BINARY, offset / 256, offset % 256, le);
      Goes(c, d, sent, ReadCommand(channel, offset, le));
      done, n := false, 0;
      if sent {
        var sw := GetStatusWord();
        n := GetResponseLength();
        done := sw == OK;
      }
    }

    /**
     One step of a chunked read: READ BINARY into `data[at..]`. When `done` is false nothing was read
     and `data` is unchanged.
     */
    method ReadInto(offset: nat, le: byte, data: array<byte>, at: nat, ghost c: Card, ghost f: EF) returns (done: bool, n: nat)
      requires Reading(c, f) && offset < 0x8000
      requires 0 < le && at + le <= data.Length
      requires data !in Device()
      modifies Device(), data
      ensures Reading(c, f)
      ensures done ==>
        && 1 <= n <= le && offset + le <= |f.content|
        && data[at..at + n] == f.content[offset..offset + n]
        && (offset < f.whole ==> n == le)
      ensures !done ==> n == 0
      ensures data[..at] == old(data[..at]) && data[at + n..] == old(data[at + n..])
      ensures var s := Send(old(Card()), ReadCommand(channel, offset, le));
              Card() == s.card && done == s.Succeeded() && (done ==> n == |s.answer.value| - 2)
      ensures old(Losses()) <= Losses()
      ensures Losses() == old(Losses()) && offset + le <= |f.content| ==> done
    {
      hide Steady, Undisturbed, Send;
      n := 0;
      var sent, len;
      sent, done, len := ReadBinary(offset, le, c, f);
      if done {
        n := GetResponse(data, at);
      }
    }
  }
}
