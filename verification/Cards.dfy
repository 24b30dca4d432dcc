/**
 A smart card as ISO/IEC 7816-4 describes it, seen through the answers it gives to commands:
 files grouped by application, logical channels with a selected application and a current file,
 and an environment that settles everything the standard leaves to the card. `env(t)` holds the
 choices for the t-th command, so a theorem about every card is a theorem about every schedule of
 refusals, lost commands, short reads and opaque answers. The card remembers every command it has
 received, and its opaque answers may depend on all of them.
 */
module Cards {
  import opened Bytes

  const OK := 0x9000

  // Instruction bytes.
  const MANAGE_CHANNEL: byte := 0x70
  const SELECT: byte := 0xA4
  const READ_BINARY: byte := 0xB0
  const GET_RESPONSE: byte := 0xC0
  const ENVELOPE: byte := 0xC2

  /** A two-byte answer that is not the outcome of a command: 6Cxx (wrong Le) or 61xx (data waiting). */
  predicate Procedural(a: seq<byte>) {
    |a| == 2 && (a[0] == 0x6C || a[0] == 0x61)
  }

  /** The outcome of a command: up to 256 data bytes and a status word. */
  type Answer = a: seq<byte> | 2 <= |a| <= 258 && !Procedural(a) witness [0x90, 0]

  function Sw(a: seq<byte>): nat
    requires |a| >= 2
  {
    Word(a[|a| - 2], a[|a| - 1])
  }

  function Data(a: seq<byte>): seq<byte>
    requires |a| >= 2
  {
    a[..|a| - 2]
  }

  /**
   An elementary file. A read that starts below `whole` delivers every byte asked for that exists;
   later reads may be cut short to any non-empty prefix.
   */
  datatype RawFile = File(fcp: seq<byte>, content: seq<byte>, whole: nat)
  type EF = f: RawFile | |f.fcp| <= 256 witness File([], [], 0)

  type Files = map<seq<byte>, EF>

  /** A logical channel: the application selected on it and the path of its current file. */
  datatype Session = Session(aid: seq<byte>, ef: Option<seq<byte>>)

  datatype Procedure = WrongLength(la: byte) | MoreData(la: byte)

  /** The commands a card has received, oldest first. */
  type Conversation = seq<seq<byte>>

  /** What the environment decides about one command. */
  datatype Choice = Choice(
    drop: bool,             // the command never reaches the card
    refuse: bool,           // opening a channel or selecting an application is refused
    close: bool,            // closing an open channel succeeds
    channel: byte,          // the channel offered to MANAGE CHANNEL
    short: nat,             // where a read may be cut short
    procs: seq<Procedure>,  // the procedure answers that precede the outcome
    answer: Conversation -> Answer)  // the outcome of a command whose meaning is opaque here

  datatype Card = Card(
    apps: map<seq<byte>, Files>, open: map<byte, Session>, env: nat -> Choice, tick: nat, received: Conversation)
  {
    function Now(): Choice {
      env(tick)
    }

    /** The card after a command that was lost on its way. */
    function Missed(): Card {
      this.(tick := tick + 1)
    }

    /** The card that has received a command. */
    function Took(apdu: seq<byte>): Card {
      this.(tick := tick + 1, received := received + [apdu])
    }

    /** How many of the commands sent to it have been lost on their way so far. */
    function Losses(): int {
      tick - |received|
    }

    /** Its answer to a command whose meaning is opaque here, by everything it has received. */
    function Opaque(apdu: seq<byte>): Answer {
      Now().answer(received + [apdu])
    }

    /** The files an application selected on channel `ch` can reach. */
    function FilesOn(ch: byte): Files {
      if ch in open && open[ch].aid in apps then apps[open[ch].aid] else map[]
    }
  }

  datatype Reply = Reply(card: Card, answer: Answer)

  function ManageChannel(c: Card, apdu: seq<byte>): Reply
    requires |apdu| >= 4
  {
    var now, d, p1, p2 := c.Now(), c.Took(apdu), apdu[2], apdu[3];
    if p1 == 0x00 && p2 == 0x00 then
      if now.refuse || now.channel !in {1, 2, 3} || now.channel in c.open then
        Reply(d, [0x6A, 0x81])
      else
        Reply(d.(open := c.open[now.channel := Session([], None)]), [now.channel, 0x90, 0x00])
    else if p1 == 0x80 && p2 in c.open && now.close then
      Reply(d.(open := c.open - {p2}), [0x90, 0x00])
    else
      Reply(d, [0x6A, 0x86])
  }

  /** SELECT by application name is answered 9000 or 61xx, with any file control information. */
  predicate Accepted(a: Answer) {
    Sw(a) == OK || Sw(a) / 256 == 0x61
  }

  function SelectName(c: Card, ch: byte, apdu: seq<byte>): Reply
    requires ch in c.open
  {
    var name := Body(apdu);
    if name !in c.apps || c.Now().refuse then
      Reply(c.Took(apdu), [0x6A, 0x82])
    else
      Reply(c.Took(apdu).(open := c.open[ch := Session(name, None)]),
            if Accepted(c.Opaque(apdu)) then c.Opaque(apdu) else [0x90, 0x00])
  }

  function SelectPath(c: Card, ch: byte, apdu: seq<byte>): Reply
    requires ch in c.open
  {
    var path := Body(apdu);
    if path !in c.FilesOn(ch) then
      Reply(c.Took(apdu), [0x6A, 0x82])
    else
      Reply(c.Took(apdu).(open := c.open[ch := c.open[ch].(ef := Some(path))]), c.FilesOn(ch)[path].fcp + [0x90, 0x00])
  }

  function Min(a: nat, b: nat): nat {
    if a <= b then a else b
  }

  /** The number of bytes READ BINARY delivers from `offset`. */
  function Delivered(f: EF, offset: nat, le: byte, short: nat): (n: nat)
    requires offset < |f.content|
    ensures 1 <= n <= |f.content| - offset && n <= (if le == 0 then 256 else le)
  {
    var available := Min(if le == 0 then 256 else le, |f.content| - offset);
    if offset < f.whole then available else 1 + short % available
  }

  function ReadFile(f: EF, offset: nat, le: byte, short: nat): Answer {
    if offset >= |f.content| then
      [0x6B, 0x00]
    else
      var n := Delivered(f, offset, le, short);
      f.content[offset..offset + n] + (if offset + le <= |f.content| then [0x90, 0x00] else [0x62, 0x82])
  }

  /** READ BINARY of the current file; an offset of 0x8000 or more is not an offset for the card. */
  function ReadCurrent(c: Card, ch: byte, apdu: seq<byte>): Reply
    requires ch in c.open && |apdu| >= 5
  {
    var ef, p1 := c.open[ch].ef, apdu[2];
    Reply(c.Took(apdu),
          if ef.None? || ef.value !in c.FilesOn(ch) then [0x69, 0x86]
          else if p1 >= 0x80 then [0x6A, 0x82]
          else ReadFile(c.FilesOn(ch)[ef.value], Word(p1, apdu[3]), apdu[4], c.Now().short))
  }

  /** The data field of a command, as its Lc byte delimits it. */
  function Body(apdu: seq<byte>): seq<byte> {
    if |apdu| > 5 && 5 + apdu[4] <= |apdu| then apdu[5..5 + apdu[4]] else []
  }

  /** The outcome of a command that reaches the card; the low two bits of its class name the channel. */
  function Direct(c: Card, apdu: seq<byte>): Reply
    requires |apdu| >= 4
  {
    var ch: byte := apdu[0] % 4;
    if apdu[1] == MANAGE_CHANNEL then ManageChannel(c, apdu)
    else if ch !in c.open then Reply(c.Took(apdu), [0x68, 0x81])
    else if apdu[1] == SELECT && apdu[2] == 0x04 then SelectName(c, ch, apdu)
    else if apdu[1] == SELECT && apdu[2] == 0x08 then SelectPath(c, ch, apdu)
    else if apdu[1] == READ_BINARY && |apdu| == 5 then ReadCurrent(c, ch, apdu)
    else Reply(c.Took(apdu), c.Opaque(apdu))
  }

  /** A close command the environment lets through is never lost. */
  predicate Lost(c: Card, apdu: seq<byte>)
    requires |apdu| >= 4
  {
    c.Now().drop && !(apdu[1] == MANAGE_CHANNEL && apdu[2] == 0x80 && c.Now().close)
  }

  datatype Sent = Sent(card: Card, answer: Option<Answer>)
  {
    predicate Succeeded() {
      answer.Some? && Sw(answer.value) == OK
    }
  }

  /** One command as the layers above the T=0 transport see it: its outcome, or nothing if it was lost. */
  function Send(c: Card, apdu: seq<byte>): Sent
    requires |apdu| >= 4
  {
    if Lost(c, apdu) then Sent(c.Missed(), None)
    else var r := Direct(c, apdu); Sent(r.card, Some(r.answer))
  }

  /** From now on every command reaches the card. */
  ghost predicate Steady(c: Card) {
    forall t: nat :: c.tick <= t ==> !c.env(t).drop
  }

  /** From now on every attempt to close an open channel succeeds. */
  ghost predicate ClosesSucceed(c: Card) {
    forall t: nat :: c.tick <= t ==> c.env(t).close
  }

  // The four APDU cases.

  function Case1(cla: byte, ins: byte, p1: byte, p2: byte): seq<byte> {
    [cla, ins, p1, p2]
  }

  function Case2(cla: byte, ins: byte, p1: byte, p2: byte, le: byte): seq<byte> {
    [cla, ins, p1, p2, le]
  }

  function Case3(cla: byte, ins: byte, p1: byte, p2: byte, data: seq<byte>): seq<byte> {
    [cla, ins, p1, p2, |data| % 256] + data
  }

  function Case4(cla: byte, ins: byte, p1: byte, p2: byte, data: seq<byte>, le: byte): seq<byte> {
    [cla, ins, p1, p2, |data| % 256] + data + [le]
  }

  /** The card goes on: each command it has not received was lost on its way. */
  ghost predicate Counted(c: Card, d: Card) {
    && d.env == c.env && c.tick <= d.tick && c.received <= d.received
    && c.Losses() <= d.Losses()
    && (Steady(c) ==> c.Losses() == d.Losses() && Steady(d))
  }

  lemma SendCounted(c: Card, apdu: seq<byte>)
    requires |apdu| >= 4
    ensures var s := Send(c, apdu);
            && Counted(c, s.card) && s.card.received == (if s.answer.Some? then c.received + [apdu] else c.received)
            && (s.answer.Some? <==> s.card.Losses() == c.Losses())
  {
    hide ReadFile, Body;
  }

  lemma CountedMore(c: Card, d: Card, e: Card)
    requires Counted(c, d) && Counted(d, e)
    ensures Counted(c, e)
  {
  }

  /** A command that manages neither channels nor applications. */
  predicate SessionCommand(apdu: seq<byte>, ch: byte) {
    |apdu| >= 4 && apdu[0] % 4 == ch && apdu[1] != MANAGE_CHANNEL && !(apdu[1] == SELECT && apdu[2] == 0x04)
  }

  /** The card has since received commands of a session on channel `ch` only, one for each that was not lost. */
  ghost predicate Heard(c: Card, d: Card, ch: byte) {
    && c.received <= d.received
    && (forall k :: |c.received| <= k < |d.received| ==> SessionCommand(d.received[k], ch))
    && c.Losses() <= d.Losses() && (Steady(c) ==> c.Losses() == d.Losses())
  }

  /** Meanwhile the card has only been asked to select and read files. */
  ghost predicate Looked(c: Card, d: Card) {
    && c.received <= d.received
    && forall k :: |c.received| <= k < |d.received| ==> |d.received[k]| >= 4 && d.received[k][1] in {SELECT, READ_BINARY}
  }

  lemma LookedOne(c: Card, apdu: seq<byte>)
    requires |apdu| >= 4 && apdu[1] in {SELECT, READ_BINARY}
    ensures Looked(c, c) && Looked(c, Send(c, apdu).card)
  {
    SendCounted(c, apdu);
    hide Send;
  }

  lemma LookedMore(c: Card, d: Card, e: Card)
    requires Looked(c, d) && Looked(d, e)
    ensures Looked(c, e)
  {
    forall k | |c.received| <= k < |e.received|
      ensures |e.received[k]| >= 4 && e.received[k][1] in {SELECT, READ_BINARY}
    {
      if k < |d.received| {
        assert e.received[k] == d.received[k];
      }
    }
  }

  /** `d` is reached from `c` by commands on channel `ch` that manage neither channels nor applications. */
  ghost predicate Undisturbed(c: Card, d: Card, ch: byte) {
    && d.apps == c.apps && d.env == c.env && c.tick <= d.tick
    && d.open.Keys == c.open.Keys
    && (ch in c.open ==> d.open[ch].aid == c.open[ch].aid)
    && (forall k :: k in c.open && k != ch ==> d.open[k] == c.open[k])
    && Heard(c, d, ch)
  }

  /** One more command, received or lost. */
  lemma HeardOne(c: Card, d: Card, apdu: seq<byte>, ch: byte)
    requires SessionCommand(apdu, ch) && d.env == c.env
    requires d.tick == c.tick + 1 && (d.received == c.received + [apdu] || (d.received == c.received && c.Now().drop))
    ensures Heard(c, d, ch) && (Steady(c) ==> Steady(d))
  {
  }

  lemma HeardMore(c: Card, d: Card, e: Card, ch: byte)
    requires Heard(c, d, ch) && Heard(d, e, ch) && d.env == c.env && c.tick <= d.tick
    ensures Heard(c, e, ch)
  {
    if Steady(c) {
      assert Steady(d);
    }
    forall k | |c.received| <= k < |e.received|
      ensures SessionCommand(e.received[k], ch)
    {
      if k < |d.received| {
        assert e.received[k] == d.received[k];
      }
    }
  }

  lemma Onwards(c: Card, d: Card, e: Card, ch: byte)
    requires Undisturbed(c, d, ch) && Undisturbed(d, e, ch)
    ensures Undisturbed(c, e, ch)
    ensures c.Losses() <= d.Losses() <= e.Losses()
    ensures Steady(c) ==> Steady(d) && Steady(e) && c.Losses() == e.Losses()
  {
    HeardMore(c, d, e, ch);
    hide Heard;
  }

  // What SELECT by path and READ BINARY do on a channel whose application owns `files`.

  lemma SendSelectPath(c: Card, ch: byte, apdu: seq<byte>, path: seq<byte>)
    requires ch in c.open && |path| < 256 && ch < 4
    requires apdu == Case3(ch, SELECT, 0x08, 0x04, path)
          || exists le :: apdu == Case4(ch, SELECT, 0x08, 0x04, path, le)
    ensures var s := Send(c, apdu);
            && Undisturbed(c, s.card, ch)
            && (s.answer.Some? <==> s.card.Losses() == c.Losses())
            && (s.Succeeded() ==> path in c.FilesOn(ch) && s.answer.value == c.FilesOn(ch)[path].fcp + [0x90, 0x00]
                                  && s.card.open[ch].ef == Some(path))
            && (s.answer.Some? && path in c.FilesOn(ch) ==> s.Succeeded())
  {
    assert apdu[5..5 + |path|] == path;
    HeardOne(c, Send(c, apdu).card, apdu, ch);
    hide Heard;
  }

  lemma SendRead(c: Card, ch: byte, offset: nat, le: byte)
    requires ch in c.open && ch < 4 && offset < 0x8000
    requires c.open[ch].ef.Some? && c.open[ch].ef.value in c.FilesOn(ch)
    ensures var s, f := Send(c, Case2(ch, READ_BINARY, offset / 256, offset % 256, le)), c.FilesOn(ch)[c.open[ch].ef.value];
            && s.card.open == c.open && Undisturbed(c, s.card, ch)
            && (s.answer.Some? <==> s.card.Losses() == c.Losses())
            && (s.answer.Some? ==> s.answer.value == ReadFile(f, offset, le, c.Now().short))
  {
    var apdu := Case2(ch, READ_BINARY, offset / 256, offset % 256, le);
    assert Word(offset / 256, offset % 256) == offset;
    HeardOne(c, Send(c, apdu).card, apdu, ch);
    hide Heard, ReadFile;
  }

  /** A read succeeds exactly when all the bytes asked for exist, and then delivers a non-empty prefix of them. */
  lemma ReadOutcome(f: EF, offset: nat, le: byte, short: nat)
    ensures var a := ReadFile(f, offset, le, short);
            && (Sw(a) == OK <==> offset < |f.content| && offset + le <= |f.content|)
            && (Sw(a) == OK ==>
                  && 1 <= |Data(a)| <= (if le == 0 then 256 else le) && offset + |Data(a)| <= |f.content|
                  && Data(a) == f.content[offset..offset + |Data(a)|]
                  && (offset < f.whole && le > 0 ==> |Data(a)| == le))
  {
  }

  /** One read in the course of a session that has come from `c` to `d`. */
  lemma SendReadOnwards(c: Card, d: Card, ch: byte, offset: nat, le: byte)
    requires Undisturbed(c, d, ch) && ch in d.open && ch < 4 && offset < 0x8000
    requires d.open[ch].ef.Some? && d.open[ch].ef.value in d.FilesOn(ch)
    ensures var s, f := Send(d, Case2(ch, READ_BINARY, offset / 256, offset % 256, le)), d.FilesOn(ch)[d.open[ch].ef.value];
            && Undisturbed(c, s.card, ch) && Looked(d, s.card) && s.card.open == d.open
            && c.Losses() <= d.Losses() <= s.card.Losses() && (s.answer.Some? <==> s.card.Losses() == d.Losses())
            && (Steady(c) ==> Steady(s.card) && c.Losses() == s.card.Losses())
            && (s.answer.Some? ==>
                  var a := s.answer.value;
                  && (Sw(a) == OK <==> offset < |f.content| && offset + le <= |f.content|)
                  && (Sw(a) == OK ==>
                        && 1 <= |Data(a)| <= (if le == 0 then 256 else le) && offset + |Data(a)| <= |f.content|
                        && a == f.content[offset..offset + |Data(a)|] + [0x90, 0x00]
                        && (offset < f.whole && le > 0 ==> |Data(a)| == le)))
  {
    SendRead(d, ch, offset, le);
    LookedOne(d, Case2(ch, READ_BINARY, offset / 256, offset % 256, le));
    var f := d.FilesOn(ch)[d.open[ch].ef.value];
    ReadOutcome(f, offset, le, d.Now().short);
    Onwards(c, d, Send(d, Case2(ch, READ_BINARY, offset / 256, offset % 256, le)).card, ch);
    hide Send, Undisturbed, Steady, Looked, Delivered;
  }

  /** A command whose meaning is opaque here. */
  predicate OpaqueCommand(apdu: seq<byte>, ch: byte) {
    |apdu| >= 4 && apdu[0] % 4 == ch && apdu[1] !in {MANAGE_CHANNEL, SELECT, READ_BINARY}
  }

  /** The environment answers it, by all that the card has received, and the card stays as it is. */
  lemma SendOpaque(c: Card, apdu: seq<byte>, ch: byte)
    requires OpaqueCommand(apdu, ch) && ch in c.open
    ensures Send(c, apdu) == if c.Now().drop then Sent(c.Missed(), None) else Sent(c.Took(apdu), Some(c.Opaque(apdu)))
    ensures Undisturbed(c, Send(c, apdu).card, ch) && (Steady(c) ==> Steady(Send(c, apdu).card))
  {
    HeardOne(c, Send(c, apdu).card, apdu, ch);
    hide Heard;
  }
}
