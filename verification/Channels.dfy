/**
 Logical channels over whole runs: what `Applet::select(false)`, `deselect` and `transmit` do to a
 card and to the applet's own record of its channel, and which invariant that keeps.
 */
module Channels {
  import opened Bytes
  import opened Cards

  /** An applet's record of its session (Applet.h). */
  datatype View = View(aid: seq<byte>, channel: byte, selected: bool)

  const OPEN := Case2(0x00, MANAGE_CHANNEL, 0x00, 0x00, 0x01)

  function Close(ch: byte): seq<byte> {
    Case2(0x00, MANAGE_CHANNEL, 0x80, ch, 0x01)
  }

  function SelectByName(ch: byte, aid: seq<byte>): seq<byte> {
    Case3(OrBytes(0x00, ch), SELECT, 0x04, 0x00, aid)
  }

  datatype Outcome = Outcome(card: Card, view: View, ok: bool)

  function Deselected(c: Card, v: View): Outcome {
    if v.selected then
      var s := Send(c, Close(v.channel));
      Outcome(s.card, v.(selected := !s.Succeeded()), s.Succeeded())
    else
      Outcome(c, v, true)
  }

  /** The channel number in the answer to an open request; the old one if the answer carries none. */
  function Assigned(v: View, answer: Answer): View {
    if |answer| > 2 then v.(channel := answer[0]) else v
  }

  function Selected(c: Card, v: View): Outcome {
    var d := Deselected(c, v);
    var offered := Send(d.card, OPEN);
    if !offered.Succeeded() then
      Outcome(offered.card, d.view, false)
    else
      var w := Assigned(d.view, offered.answer.value);
      var named := Send(offered.card, SelectByName(w.channel, w.aid));
      if named.answer.Some? && Accepted(named.answer.value) then
        Outcome(named.card, w.(selected := true), true)
      else
        Outcome(Send(named.card, Close(w.channel)).card, w, false)
  }

  /** The command as it leaves the applet: its class byte or-ed with the channel. */
  function Routed(v: View, apdu: seq<byte>): seq<byte>
    requires |apdu| >= 4
  {
    [OrBytes(apdu[0], v.channel)] + apdu[1..]
  }

  function Transmitted(c: Card, v: View, apdu: seq<byte>): Sent
    requires |apdu| >= 4
  {
    if v.selected then Send(c, Routed(v, apdu)) else Sent(c, None)
  }

  /** A command an applet sends to its own application: no channel bits, no channel or application management. */
  predicate AppletCommand(apdu: seq<byte>) {
    |apdu| >= 4 && apdu[0] % 4 == 0 && apdu[1] != MANAGE_CHANNEL && !(apdu[1] == SELECT && apdu[2] == 0x04)
  }

  // ---- Two applets sharing a card ----

  /** The card with the two applets of the SDK, MF and MIAS. */
  datatype World = World(card: Card, mf: View, mias: View)

  datatype Op = SelectOp(mf: bool) | DeselectOp(mf: bool) | TransmitOp(mf: bool, apdu: seq<byte>)

  predicate ProperOp(op: Op) {
    op.TransmitOp? ==> AppletCommand(op.apdu)
  }

  function Of(w: World, mf: bool): View {
    if mf then w.mf else w.mias
  }

  function Put(w: World, mf: bool, card: Card, v: View): World {
    if mf then World(card, v, w.mias) else World(card, w.mf, v)
  }

  function Step(w: World, op: Op): World
    requires ProperOp(op)
  {
    match op
    case SelectOp(mf) => var o := Selected(w.card, Of(w, mf)); Put(w, mf, o.card, o.view)
    case DeselectOp(mf) => var o := Deselected(w.card, Of(w, mf)); Put(w, mf, o.card, o.view)
    case TransmitOp(mf, apdu) => w.(card := Transmitted(w.card, Of(w, mf), apdu).card)
  }

  function Run(w: World, ops: seq<Op>): World
    requires forall op :: op in ops ==> ProperOp(op)
    decreases |ops|
  {
    if ops == [] then w else Run(Step(w, ops[0]), ops[1..])
  }

  function Held(v: View): set<byte> {
    if v.selected then {v.channel} else {}
  }

  /** A selected applet holds an open channel in 1..3 on which its own application is selected. */
  ghost predicate Sound(c: Card, v: View) {
    v.selected ==> v.channel in {1, 2, 3} && v.channel in c.open && c.open[v.channel].aid == v.aid
  }

  /** The open channels are exactly the channels of the selected applets, and these are distinct. */
  ghost predicate Safe(w: World) {
    && w.card.open.Keys == Held(w.mf) + Held(w.mias)
    && Held(w.mf) !! Held(w.mias)
    && Sound(w.card, w.mf) && Sound(w.card, w.mias)
  }

  lemma RoutedClass(cla: byte, ch: byte)
    requires cla % 4 == 0 && ch < 4
    ensures OrBytes(cla, ch) == cla + ch && OrBytes(cla, ch) % 4 == ch
  {
    Four();
    hide Or, Pow2;
    var k := cla / 4;
    assert cla == k * 4;
    OrAdds(k, ch, 2);
  }

  lemma Four()
    ensures Pow2(2) == 4
  {
  }

  lemma SendClose(c: Card, ch: byte)
    ensures var s := Send(c, Close(ch));
            && s.card.env == c.env && s.card.tick == c.tick + 1 && s.card.apps == c.apps
            && s.Succeeded() == (ch in c.open && c.Now().close)
            && s.card.open == if s.Succeeded() then c.open - {ch} else c.open
  {
    assert !Lost(c, Close(ch)) || !c.Now().close;
  }

  lemma SendOpen(c: Card)
    ensures var s := Send(c, OPEN);
            && s.card.env == c.env && s.card.tick == c.tick + 1 && s.card.apps == c.apps
            && (s.Succeeded() ==>
                  exists ch: byte :: ch in {1, 2, 3} && ch !in c.open && s.answer.value == [ch, 0x90, 0x00]
                    && s.card.open == c.open[ch := Session([], None)])
            && (!s.Succeeded() ==> s.card.open == c.open)
  {
  }

  lemma SendName(c: Card, ch: byte, aid: seq<byte>)
    requires ch in {1, 2, 3} && ch in c.open && |aid| < 256
    ensures var s := Send(c, SelectByName(ch, aid));
            && s.card.env == c.env && s.card.tick == c.tick + 1 && s.card.apps == c.apps
            && s.card.open == if s.answer.Some? && Accepted(s.answer.value)
                              then c.open[ch := Session(aid, None)] else c.open
  {
    RoutedClass(0, ch);
    var apdu := SelectByName(ch, aid);
    assert Body(apdu) == aid;
  }

  lemma DeselectedEffect(c: Card, v: View)
    requires Sound(c, v)
    ensures var o := Deselected(c, v);
            && o.card.env == c.env && o.card.apps == c.apps && c.tick <= o.card.tick
            && o.view == v.(selected := v.selected && !c.Now().close) && o.ok == !o.view.selected
            && o.card.open == if v.selected && c.Now().close then c.open - {v.channel} else c.open
  {
    SendClose(c, v.channel);
  }

  /** A selection over an applet whose channel could not be closed opens a second one and loses the first. */
  predicate LosesOld(c: Card, v: View) {
    v.selected && !c.Now().close && Send(Deselected(c, v).card, OPEN).Succeeded()
  }

  /** A channel opened for an application that cannot be selected, and which cannot be closed again, is lost. */
  predicate LosesNew(c: Card, v: View) {
    var d := Deselected(c, v);
    var offered := Send(d.card, OPEN);
    offered.Succeeded() &&
    var w := Assigned(d.view, offered.answer.value);
    var named := Send(offered.card, SelectByName(w.channel, w.aid));
    !(named.answer.Some? && Accepted(named.answer.value)) && !named.card.Now().close
  }

  /**
   The outcomes of `select(false)`: success on a free channel `ch`; failure that leaves the channels
   as the deselection left them; failure that leaves `ch` open.
   */
  lemma SelectedEffect(c: Card, v: View) returns (ch: byte)
    requires Sound(c, v) && |v.aid| < 256
    ensures var d, o := Deselected(c, v), Selected(c, v);
            && o.card.env == c.env && o.card.apps == c.apps && c.tick <= o.card.tick && o.view.aid == v.aid
            && ch in {1, 2, 3} && (o.ok || LosesOld(c, v) || LosesNew(c, v) ==> ch !in d.card.open)
            && (o.ok ==> o.card.open == d.card.open[ch := Session(v.aid, None)] && o.view == View(v.aid, ch, true))
            && (!o.ok ==> o.view.selected == d.view.selected)
            && (!o.ok && LosesOld(c, v) ==> o.view.channel == ch)
            && (!o.ok && !LosesOld(c, v) && d.view.selected ==> o.view == d.view)
            && (!o.ok ==> o.card.open == if LosesNew(c, v) then d.card.open[ch := Session([], None)] else d.card.open)
            && (LosesNew(c, v) ==> !o.ok)
            && (o.ok && !LosesOld(c, v) ==> !d.view.selected)
  {
    hide Send;
    DeselectedEffect(c, v);
    var d := Deselected(c, v);
    SendOpen(d.card);
    var offered := Send(d.card, OPEN);
    if offered.Succeeded() {
      ch := offered.answer.value[0];
      var w := Assigned(d.view, offered.answer.value);
      SendName(offered.card, ch, w.aid);
      SendClose(Send(offered.card, SelectByName(ch, w.aid)).card, ch);
    } else {
      ch := 1;
    }
  }

  /** `deselect` keeps the channels accounted for whether or not the card closes the channel. */
  lemma DeselectKeeps(w: World, mf: bool)
    requires Safe(w)
    ensures Safe(Step(w, DeselectOp(mf)))
    ensures w.card.Now().close ==> !Of(Step(w, DeselectOp(mf)), mf).selected
  {
    hide Deselected;
    DeselectedEffect(w.card, Of(w, mf));
  }

  /**
   The exact condition under which `select(false)` keeps the channels accounted for: no close that
   it needs is refused.
   */
  lemma SelectKeepsExactly(w: World, mf: bool)
    requires Safe(w) && 0 < |Of(w, mf).aid| < 256
    ensures Safe(Step(w, SelectOp(mf))) <==> !LosesOld(w.card, Of(w, mf)) && !LosesNew(w.card, Of(w, mf))
  {
    hide Selected, Deselected, LosesNew, Send;
    var v, other := Of(w, mf), Of(w, !mf);
    DeselectedEffect(w.card, v);
    var ch := SelectedEffect(w.card, v);
    var next := Step(w, SelectOp(mf));
    assert other.selected ==> other.channel in Deselected(w.card, v).card.open;
    if LosesOld(w.card, v) {
      assert v.channel in next.card.open.Keys && v.channel !in Held(other) + Held(Of(next, mf));
    } else if LosesNew(w.card, v) {
      assert ch in next.card.open.Keys;
    } else {
      assert Sound(next.card, other) && Sound(next.card, Of(next, mf));
      assert next.card.open.Keys == Held(Of(next, mf)) + Held(other);
    }
  }

  /** A card without applications that refuses to close: selecting an applet leaves a channel open that no applet holds. */
  lemma ChannelLost()
    ensures var card := Card(map[], map[], _ => Choice(false, false, false, 1, 0, [], _ => [0x90, 0x00]), 0, []);
            var w := World(card, View([1], 0, false), View([2], 0, false));
            Safe(w) && !Safe(Step(w, SelectOp(true)))
            && Step(w, SelectOp(true)).card.open.Keys == {1} && !Step(w, SelectOp(true)).mf.selected
  {
    var card := Card(map[], map[], _ => Choice(false, false, false, 1, 0, [], _ => [0x90, 0x00]), 0, []);
    var v := View([1], 0, false);
    var offered := Send(card, OPEN);
    assert offered.Succeeded() && offered.answer.value == [1, 0x90, 0x00];
    SendName(offered.card, 1, [1]);
    RoutedClass(0x00, 1);
    var apdu := SelectByName(1, [1]);
    assert Body(apdu) == [1];
    var named := Send(offered.card, apdu);
    assert named.answer == Some([0x6A, 0x82]);
    SendClose(named.card, 1);
  }

  /** A command an applet sends is executed on its own channel, where its own application is selected. */
  lemma TransmitReachesOwnApplication(c: Card, v: View, apdu: seq<byte>)
    requires v.selected && Sound(c, v) && AppletCommand(apdu)
    ensures var ch: byte := Routed(v, apdu)[0] % 4; ch == v.channel && ch in c.open && c.open[ch].aid == v.aid
    ensures Routed(v, apdu)[1..] == apdu[1..]
    ensures var d := Transmitted(c, v, apdu).card;
            && d.open.Keys == c.open.Keys && d.open[v.channel].aid == v.aid && d.apps == c.apps && d.env == c.env
            && forall ch :: ch in c.open && ch != v.channel ==> d.open[ch] == c.open[ch]
  {
    RoutedClass(apdu[0], v.channel);
  }

  /** In every run the open channels are exactly those of the selected applets, as long as closes succeed. */
  lemma {:induction false} RunKeepsChannels(w: World, ops: seq<Op>)
    requires Safe(w) && ClosesSucceed(w.card)
    requires 0 < |w.mf.aid| < 256 && 0 < |w.mias.aid| < 256
    requires forall op :: op in ops ==> ProperOp(op)
    ensures Safe(Run(w, ops))
    decreases |ops|
  {
    if ops != [] {
      var next := Step(w, ops[0]);
      StepSafe(w, ops[0]);
      RunKeepsChannels(next, ops[1..]);
    }
  }

  lemma StepSafe(w: World, op: Op)
    requires Safe(w) && ClosesSucceed(w.card) && ProperOp(op)
    requires 0 < |w.mf.aid| < 256 && 0 < |w.mias.aid| < 256
    ensures var next := Step(w, op);
            Safe(next) && ClosesSucceed(next.card) && next.mf.aid == w.mf.aid && next.mias.aid == w.mias.aid
  {
    match op
    case SelectOp(mf) => SelectSafe(w, mf);
    case DeselectOp(mf) =>
      DeselectKeeps(w, mf);
      hide Deselected;
      DeselectedEffect(w.card, Of(w, mf));
    case TransmitOp(mf, apdu) =>
      hide Transmitted;
      if Of(w, mf).selected {
        TransmitReachesOwnApplication(w.card, Of(w, mf), apdu);
      } else {
        NothingTransmitted(w.card, Of(w, mf), apdu);
      }
  }

  lemma NothingTransmitted(c: Card, v: View, apdu: seq<byte>)
    requires !v.selected && |apdu| >= 4
    ensures Transmitted(c, v, apdu) == Sent(c, None)
  {
  }

  lemma SelectSafe(w: World, mf: bool)
    requires Safe(w) && ClosesSucceed(w.card) && 0 < |Of(w, mf).aid| < 256
    ensures var next := Step(w, SelectOp(mf));
            Safe(next) && ClosesSucceed(next.card) && next.mf.aid == w.mf.aid && next.mias.aid == w.mias.aid
  {
    hide Selected, Deselected, Send;
    SelectKeepsExactly(w, mf);
    var ch := SelectedEffect(w.card, Of(w, mf));
    NothingLost(w.card, Of(w, mf));
  }

  lemma NothingLost(c: Card, v: View)
    requires Sound(c, v) && |v.aid| < 256 && ClosesSucceed(c)
    ensures !LosesOld(c, v) && !LosesNew(c, v)
  {
    hide Send;
    DeselectedEffect(c, v);
    var d := Deselected(c, v);
    SendOpen(d.card);
    var offered := Send(d.card, OPEN);
    if offered.Succeeded() {
      var w := Assigned(d.view, offered.answer.value);
      SendName(offered.card, w.channel, w.aid);
    }
  }

  // ---- One applet's session, from selection to deselection ----

  /** Selecting an idle applet opens one channel of its own, or leaves the card's channels as they were. */
  lemma SelectIdle(c: Card, v: View)
    requires !v.selected && ClosesSucceed(c) && 0 < |v.aid| < 256
    ensures var o := Selected(c, v);
            && o.card.env == c.env && o.card.apps == c.apps && c.tick <= o.card.tick && o.view.aid == v.aid
            && o.view.selected == o.ok && Sound(o.card, o.view)
            && (o.ok ==> o.view.channel !in c.open && o.card.open == c.open[o.view.channel := Session(v.aid, None)])
            && (!o.ok ==> o.card.open == c.open)
  {
    hide Selected, Send, Deselected;
    DeselectedEffect(c, v);
    NothingLost(c, v);
    var ch := SelectedEffect(c, v);
  }

  /** Deselecting after nothing but commands on the applet's channel restores the channels there were before. */
  lemma DeselectRestores(before: Card, start: Card, now: Card, v: View)
    requires v.selected && v.channel !in before.open && start.open == before.open[v.channel := Session(v.aid, None)]
    requires Undisturbed(start, now, v.channel) && Sound(now, v) && ClosesSucceed(now)
    ensures var o := Deselected(now, v);
            && o.card.open == before.open && !o.view.selected
            && o.card.env == now.env && o.card.apps == now.apps && now.tick <= o.card.tick
  {
    hide Deselected;
    DeselectedEffect(now, v);
    assert now.open - {v.channel} == before.open;
  }

  /**
   `d` is the card after one session of the applet `v`, begun at `c`: the selection, and if it succeeded
   only commands of a session and, last, the close of its channel.
   */
  ghost predicate OneSession(c: Card, v: View, d: Card) {
    var s := Selected(c, v);
    && d.open == c.open && d.apps == c.apps && d.env == c.env
    && if !s.ok then d == s.card
       else
         && Counted(s.card, d) && |s.card.received| < |d.received|
         && d.received[|d.received| - 1] == Close(s.view.channel)
         && forall k :: |s.card.received| <= k < |d.received| - 1 ==> SessionCommand(d.received[k], s.view.channel)
  }

  lemma SelectCounted(c: Card, v: View)
    ensures Counted(c, Selected(c, v).card)
  {
    hide Send, Counted, Steady;
    Uncounted(c);
    var d := Deselected(c, v);
    if v.selected {
      SendCounted(c, Close(v.channel));
    }
    SendCounted(d.card, OPEN);
    var offered := Send(d.card, OPEN);
    CountedMore(c, d.card, offered.card);
    if offered.Succeeded() {
      var w := Assigned(d.view, offered.answer.value);
      SendCounted(offered.card, SelectByName(w.channel, w.aid));
      var named := Send(offered.card, SelectByName(w.channel, w.aid));
      CountedMore(c, offered.card, named.card);
      SendCounted(named.card, Close(w.channel));
      CountedMore(c, named.card, Send(named.card, Close(w.channel)).card);
    }
  }

  lemma SessionCounted(c: Card, v: View, d: Card)
    requires OneSession(c, v, d)
    ensures Counted(c, d) && d.apps == c.apps && d.open == c.open
  {
    SelectCounted(c, v);
    hide Selected, Steady;
    if Selected(c, v).ok {
      CountedMore(c, Selected(c, v).card, d);
    }
  }

  lemma Uncounted(c: Card)
    ensures Counted(c, c)
  {
  }

  lemma ClosingCounted(start: Card, now: Card, v: View)
    requires Undisturbed(start, now, v.channel)
    ensures Counted(start, Deselected(now, v).card)
  {
    Uncounted(now);
    SendCounted(now, Close(v.channel));
    hide Send;
    assert Counted(start, now);
    CountedMore(start, now, Deselected(now, v).card);
  }

  lemma NoClose(c: Card, v: View)
    requires !v.selected
    ensures Deselected(c, v) == Outcome(c, v, true)
  {
  }

  /** Commands on the applet's channel and its deselection complete the session. */
  lemma SessionEnds(c: Card, v: View, now: Card)
    requires !v.selected && ClosesSucceed(c) && 0 < |v.aid| < 256 && Selected(c, v).ok
    requires var s := Selected(c, v); Undisturbed(s.card, now, s.view.channel) && Sound(now, s.view)
    ensures OneSession(c, v, Deselected(now, Selected(c, v).view).card)
  {
    SelectIdle(c, v);
    var s := Selected(c, v);
    var ch := s.view.channel;
    DeselectRestores(c, s.card, now, s.view);
    SendCounted(now, Close(ch));
    SendClose(now, ch);
    var d := Send(now, Close(ch)).card;
    assert Counted(s.card, now);
    CountedMore(s.card, now, d);
    hide Selected, Send, Counted;
    forall k | |s.card.received| <= k < |d.received| - 1
      ensures SessionCommand(d.received[k], ch)
    {
      assert d.received[k] == now.received[k];
    }
  }

  /** What the card has received by a later time tells where a session ended, and when if no command was lost by then. */
  lemma SessionIsDetermined(c: Card, v: View, d: Card, e: Card, later: Card)
    requires OneSession(c, v, d) && OneSession(c, v, e) && Counted(d, later) && Counted(e, later)
    ensures d.received == e.received
    ensures later.Losses() == c.Losses() ==> d == e
  {
    SelectCounted(c, v);
    hide Selected, Send, Steady;
    if Selected(c, v).ok {
      ClosedOnlyAtTheEnd(c, v, d, later);
      ClosedOnlyAtTheEnd(c, v, e, later);
      var m, n, close := |d.received|, |e.received|, Close(Selected(c, v).view.channel);
      assert later.received[m - 1] == close && later.received[n - 1] == close;
      assert d.received == later.received[..m] && e.received == later.received[..n];
    }
  }

  lemma ClosedOnlyAtTheEnd(c: Card, v: View, d: Card, later: Card)
    requires OneSession(c, v, d) && Selected(c, v).ok && d.received <= later.received
    ensures var s := Selected(c, v);
            && |s.card.received| < |d.received| <= |later.received|
            && forall k :: |s.card.received| <= k < |d.received| ==>
                 (later.received[k] == Close(s.view.channel) <==> k == |d.received| - 1)
  {
    hide Selected, Send, Steady;
    var s := Selected(c, v);
    forall k | |s.card.received| <= k < |d.received|
      ensures later.received[k] == Close(s.view.channel) <==> k == |d.received| - 1
    {
      assert later.received[k] == d.received[k];
    }
  }

  /** What a call of the SDK does to the channels: one applet is selected, sent commands, and deselected. */
  datatype Visit = Visit(mf: bool, commands: seq<seq<byte>>)

  predicate ProperVisit(v: Visit) {
    forall k :: 0 <= k < |v.commands| ==> AppletCommand(v.commands[k])
  }

  /** The commands of a session; they are sent whether or not the selection succeeded. */
  function Commanded(w: World, mf: bool, commands: seq<seq<byte>>): World
    requires ProperVisit(Visit(mf, commands))
    decreases |commands|
  {
    if commands == [] then w else Commanded(Step(w, TransmitOp(mf, commands[0])), mf, commands[1..])
  }

  function Visited(w: World, v: Visit): World
    requires ProperVisit(v)
  {
    Step(Commanded(Step(w, SelectOp(v.mf)), v.mf, v.commands), DeselectOp(v.mf))
  }

  function AllVisited(w: World, visits: seq<Visit>): World
    requires forall k :: 0 <= k < |visits| ==> ProperVisit(visits[k])
    decreases |visits|
  {
    if visits == [] then w else Visited(AllVisited(w, visits[..|visits| - 1]), visits[|visits| - 1])
  }

  ghost predicate Quiet(w: World) {
    && Safe(w) && !w.mf.selected && !w.mias.selected && ClosesSucceed(w.card)
    && 0 < |w.mf.aid| < 256 && 0 < |w.mias.aid| < 256
  }

  lemma {:induction false} CommandsKeep(w: World, mf: bool, commands: seq<seq<byte>>)
    requires Safe(w) && ClosesSucceed(w.card) && 0 < |w.mf.aid| < 256 && 0 < |w.mias.aid| < 256
    requires ProperVisit(Visit(mf, commands))
    ensures var u := Commanded(w, mf, commands);
            Safe(u) && ClosesSucceed(u.card) && u.mf == w.mf && u.mias == w.mias
    decreases |commands|
  {
    hide Safe, ClosesSucceed, Transmitted;
    if commands != [] {
      StepSafe(w, TransmitOp(mf, commands[0]));
      CommandsKeep(Step(w, TransmitOp(mf, commands[0])), mf, commands[1..]);
    }
  }

  lemma VisitQuiet(w: World, v: Visit)
    requires Quiet(w) && ProperVisit(v)
    ensures Quiet(Visited(w, v))
  {
    var a := Step(w, SelectOp(v.mf));
    StepSafe(w, SelectOp(v.mf));
    CommandsKeep(a, v.mf, v.commands);
    var b := Commanded(a, v.mf, v.commands);
    StepSafe(b, DeselectOp(v.mf));
    DeselectKeeps(b, v.mf);
    hide Safe, Selected, Deselected;
  }

  /** Over any run of sessions no channel is left open behind. */
  lemma {:induction false} VisitsLeaveNoChannel(w: World, visits: seq<Visit>)
    requires Quiet(w) && forall k :: 0 <= k < |visits| ==> ProperVisit(visits[k])
    ensures Quiet(AllVisited(w, visits)) && AllVisited(w, visits).card.open == map[]
  {
    hide ClosesSucceed, Visited;
    if visits != [] {
      var init := visits[..|visits| - 1];
      VisitsLeaveNoChannel(w, init);
      VisitQuiet(AllVisited(w, init), visits[|visits| - 1]);
    }
    assert AllVisited(w, visits).card.open.Keys == {};
  }
}
