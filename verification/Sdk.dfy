/** The public calls of the SDK (BreakoutTrustOnboardSDK.cpp). */
module Sdk {
  import opened Bytes
  import opened Cards
  import opened Channels
  import opened Applets
  import opened SEInterfaces
  import opened KeyIndex
  import MFs
  import MIASs
  import Listings
  import P11Objects
  import Fcp
  import Pem
  import Matcher
  import Pso
  import AtCommands

  const ERR_MIAS_READ_OBJECT := -0x5400
  const ERR_EF_VERIFY_PIN := -0x5480
  const ERR_EF_INVALID_NAME := -0x5500
  const ERR_EF_READ_OBJECT := -0x5580
  const ERR_BAD_KEY_NAME := -0x5600

  const EF_PREFIX: seq<byte> := [0x53, 0x45, 0x3A, 0x2F, 0x2F, 0x45, 0x46, 0x2F]                     // "SE://EF/"
  const MIAS_PREFIX: seq<byte> := [0x53, 0x45, 0x3A, 0x2F, 0x2F, 0x4D, 0x49, 0x41, 0x53, 0x2F]       // "SE://MIAS/"
  const P11_PREFIX: seq<byte> :=                                                                     // "SE://MIAS_P11/"
    [0x53, 0x45, 0x3A, 0x2F, 0x2F, 0x4D, 0x49, 0x41, 0x53, 0x5F, 0x50, 0x31, 0x31, 0x2F]

  /** The three kinds of paths, in the order in which the prefixes are tried. */
  datatype Place = Elementary(name: seq<byte>) | P11Object(wanted: seq<byte>) | Container(number: seq<byte>) | Nowhere

  function PlaceOf(path: seq<byte>): Place {
    if EF_PREFIX <= path then Elementary(path[|EF_PREFIX|..])
    else if P11_PREFIX <= path then P11Object(path[|P11_PREFIX|..])
    else if MIAS_PREFIX <= path then Container(path[|MIAS_PREFIX|..])
    else Nowhere
  }

  /** The kinds of paths as they are written. */
  lemma Paths(name: seq<byte>)
    ensures PlaceOf(Text("SE://EF/") + name) == Elementary(name)
    ensures PlaceOf(Text("SE://MIAS_P11/") + name) == P11Object(name)
    ensures PlaceOf(Text("SE://MIAS/") + name) == Container(name)
  {
    Prefixes();
    PlaceOfElementary(name);
    PlaceOfP11(name);
    PlaceOfContainer(name);
    hide PlaceOf, Text;
  }

  lemma Prefixes()
    ensures EF_PREFIX == Text("SE://EF/") && P11_PREFIX == Text("SE://MIAS_P11/") && MIAS_PREFIX == Text("SE://MIAS/")
  {
  }

  /** The names of the objects that the public calls read, and the older ones. */
  lemma ObjectNames()
    ensures CERT_AVAILABLE == Text("CERT_AVAILABLE") && CERT_TYPE_A == Text("CERT_TYPE_A")
    ensures PRIV_AVAILABLE == Text("PRIV_AVAILABLE") && PRIV_TYPE_A == Text("PRIV_TYPE_A")
  {
    KeyNames();
  }

  lemma KeyNames()
    ensures PRIV_AVAILABLE == Text("PRIV_AVAILABLE") && PRIV_TYPE_A == Text("PRIV_TYPE_A")
  {
  }

  lemma PlaceOfElementary(name: seq<byte>)
    ensures PlaceOf(EF_PREFIX + name) == Elementary(name)
  {
    assert (EF_PREFIX + name)[|EF_PREFIX|..] == name;
  }

  lemma PlaceOfP11(wanted: seq<byte>)
    ensures PlaceOf(P11_PREFIX + wanted) == P11Object(wanted)
  {
    var path := P11_PREFIX + wanted;
    assert path[5] == 0x4D;
    assert path[|P11_PREFIX|..] == wanted;
  }

  lemma PlaceOfContainer(number: seq<byte>)
    ensures PlaceOf(MIAS_PREFIX + number) == Container(number)
  {
    var path := MIAS_PREFIX + number;
    assert path[5] == 0x4D && path[9] == 0x2F;
    assert path[|MIAS_PREFIX|..] == number;
  }

  /** A container number accumulated in a `uint8_t`. */
  function NumberOf(t: seq<byte>): byte {
    if t == [] then 0
    else
      var n: int, c: int := NumberOf(t[..|t| - 1]), t[|t| - 1];
      (n * 10 % 256 + c - 0x30) % 256
  }

  /** Of a decimal numeral it is the number, modulo 256. */
  lemma {:induction false} NumberOfDecimal(n: nat)
    ensures NumberOf(AtCommands.Decimal(n)) == n % 256
  {
    var t := AtCommands.Decimal(n);
    if n < 10 {
      assert t[..0] == [];
    } else {
      NumberOfDecimal(n / 10);
      assert t[..|t| - 1] == AtCommands.Decimal(n / 10);
      NextDigit(n / 10, n % 10);
    }
  }

  lemma NextDigit(n: nat, d: nat)
    requires d < 10
    ensures (n % 256 * 10 % 256 + d) % 256 == (n * 10 + d) % 256
  {
    var q, r := n / 256, n % 256;
    assert n * 10 + d == 256 * (q * 10) + (r * 10 + d);
    assert r * 10 == 256 * (r * 10 / 256) + r * 10 % 256;
    SameResidue(n * 10 + d, q * 10 + r * 10 / 256, r * 10 % 256 + d);
  }

  lemma SameResidue(x: nat, q: nat, r: nat)
    requires x == 256 * q + r
    ensures x % 256 == r % 256
  {
  }

  /** The file identifier a hexadecimal name stands for. */
  /** Up to 32 bytes of a file's name can be given, by the digits of either case; more cannot. */
  lemma EfNamed(file: seq<byte>)
    ensures EfName(AtCommands.Hex(file)) == if |file| <= 32 then Some(file) else None
  {
    AtCommands.HexRoundTrip(file);
  }

  function EfName(name: seq<byte>): Option<seq<byte>> {
    if |name| % 2 == 1 || |name| > 64 then None else Some(AtCommands.Unhex(name))
  }

  const CERT_AVAILABLE: seq<byte> := [0x43, 0x45, 0x52, 0x54, 0x5F, 0x41, 0x56, 0x41, 0x49, 0x4C, 0x41, 0x42, 0x4C, 0x45]
  const CERT_TYPE_A: seq<byte> := [0x43, 0x45, 0x52, 0x54, 0x5F, 0x54, 0x59, 0x50, 0x45, 0x5F, 0x41]
  const PRIV_AVAILABLE: seq<byte> := [0x50, 0x52, 0x49, 0x56, 0x5F, 0x41, 0x56, 0x41, 0x49, 0x4C, 0x41, 0x42, 0x4C, 0x45]
  const PRIV_TYPE_A: seq<byte> := [0x50, 0x52, 0x49, 0x56, 0x5F, 0x54, 0x59, 0x50, 0x45, 0x5F, 0x41]

  function FilesOf(c: Card, aid: seq<byte>): Files {
    if aid in c.apps then c.apps[aid] else map[]
  }

  /** The card a series of commands leaves behind, and what the program makes of their answers. */
  datatype Performed = Performed(card: Card, ret: int)

  class SDK {
    const mf: MFs.MF
    const mias: MIASs.MIAS

    ghost function Objects(): set<object>
      reads mias.applet
    {
      {mf.applet, mias, mias.applet, mias.keypairs, mias.files} + mias.applet.Device()
    }

    /** Initialized, no applet selected, and a card that closes the channels it is told to close. */
    ghost predicate Idle()
      reads mf.applet, mias, mias.applet, mias.keypairs, if mias.applet.seiface == null then {} else {mias.applet.seiface}
    {
      && mf.applet != mias.applet && mf.applet.aid == MFs.AID && mias.applet.aid == MIASs.AID
      && mias.applet.seiface != null && mf.applet.seiface == mias.applet.seiface
      && mias.Valid() && !mf.applet.isSelected && !mias.applet.isSelected
      && ClosesSucceed(Card())
      && mias.NamesCertificates(FilesOf(Card(), MIASs.AID))
    }

    ghost function Card(): Card
      requires mias.applet.seiface != null
      reads mias.applet, if mias.applet.seiface == null then {} else {mias.applet.seiface}
    {
      mias.applet.seiface.wire.card
    }

    /** Idle again, with the card's open channels and its files as they were when the card was `c`. */
    ghost predicate Restored(c: Card)
      reads mf.applet, mias, mias.applet, mias.keypairs, if mias.applet.seiface == null then {} else {mias.applet.seiface}
    {
      Idle() && Card().open == c.open && Card().apps == c.apps && Counted(c, Card())
    }

    /** Moreover the call has been one session of MIAS, or of MF, begun with the applet's record `v`. */
    ghost predicate AfterMias(c: Card, v: View)
      reads mf.applet, mias, mias.applet, mias.keypairs, if mias.applet.seiface == null then {} else {mias.applet.seiface}
    {
      Restored(c) && OneSession(c, v, Card()) && mias.applet.View() == Selected(c, v).view.(selected := false)
    }

    ghost predicate AfterMf(c: Card, v: View)
      reads mf.applet, mias, mias.applet, mias.keypairs, if mias.applet.seiface == null then {} else {mias.applet.seiface}
    {
      Restored(c) && OneSession(c, v, Card()) && mf.applet.View() == Selected(c, v).view.(selected := false)
    }

    /** As the program's static objects are before it is given an interface. */
    ghost predicate Created()
      reads mf.applet, mias, mias.applet, mias.keypairs, if mias.applet.seiface == null then {} else {mias.applet.seiface}
    {
      && mf.applet != mias.applet && mf.applet.aid == MFs.AID && mias.applet.aid == MIASs.AID
      && mf.applet.seiface == null && mias.applet.seiface == null && !mf.applet.isSelected && !mias.applet.isSelected
      && mias.Valid() && mias.keypairsNum == -1
    }

    constructor ()
      ensures Created()
      ensures fresh(mf.applet) && fresh(mias.applet) && fresh(mias) && fresh(mias.keypairs) && fresh(mias.files)
    {
      mf := new MFs.MF();
      mias := new MIASs.MIAS();
    }

    // ---- Sessions ----

    /** `s` is the card at the start of a session of MIAS, opened when the card was `c`. */
    ghost predicate InMias(c: Card, s: Card)
      reads mf.applet, mias, mias.applet, mias.keypairs, if mias.applet.seiface == null then {} else {mias.applet.seiface}
    {
      && mf.applet != mias.applet && mf.applet.aid == MFs.AID && mias.applet.aid == MIASs.AID
      && mias.applet.seiface != null && mf.applet.seiface == mias.applet.seiface && !mf.applet.isSelected
      && mias.Valid() && mias.applet.Following(s) && ClosesSucceed(s)
      && mias.NamesCertificates(s.FilesOn(mias.applet.channel))
      && mias.applet.channel !in c.open && s.open == c.open[mias.applet.channel := Session(MIASs.AID, None)]
      && s.apps == c.apps && s.env == c.env && c.tick <= s.tick
    }

    method SelectMias(ghost c: Card) returns (selected: bool, ghost s: Card)
      requires Idle() && c == Card()
      modifies mias.applet, mias.applet.Device()
      ensures mias.applet.seiface == old(mias.applet.seiface)
      ensures Outcome(s, mias.applet.View(), selected) == Selected(c, old(mias.applet.View())) && mias.applet.Card() == s
      ensures selected ==> InMias(c, s) && s.FilesOn(mias.applet.channel) == FilesOf(c, MIASs.AID)
      ensures !selected ==> Restored(c)
      ensures Counted(c, s)
      ensures mias.keypairsNum == old(mias.keypairsNum) && mias.Valid() && mias.Listed() == old(mias.Listed())
    {
      SelectIdle(c, mias.applet.View());
      SelectCounted(c, mias.applet.View());
      hide Selected;
      s := Selected(c, mias.applet.View()).card;
      selected := mias.applet.Select();
      if selected {
        mias.applet.StartsFollowing();
      }
    }

    /** `deselect`, also when the selection failed. */
    method DeselectMias(ghost c: Card, ghost v: View, ghost s: Card)
      requires v.aid == MIASs.AID && !v.selected && ClosesSucceed(c)
      requires Outcome(s, mias.applet.View(), mias.applet.isSelected) == Selected(c, v)
      requires if mias.applet.isSelected then InMias(c, s) else Restored(c) && Card() == s
      modifies mias.applet`isSelected, mias.applet.Device()
      ensures mias.applet.seiface == old(mias.applet.seiface) && AfterMias(c, v)
      ensures Card() == old(Deselected(Card(), mias.applet.View())).card && old(Card()).Losses() <= Card().Losses()
      ensures mias.keypairsNum == old(mias.keypairsNum) && mias.Valid() && mias.Listed() == old(mias.Listed())
    {
      if mias.applet.isSelected {
        DeselectRestores(c, s, mias.applet.Card(), mias.applet.View());
        SessionEnds(c, v, mias.applet.Card());
        SelectCounted(c, v);
        ClosingCounted(s, mias.applet.Card(), mias.applet.View());
        SendCounted(mias.applet.Card(), Close(mias.applet.channel));
        CountedMore(c, s, Deselected(mias.applet.Card(), mias.applet.View()).card);
      } else {
        NoClose(mias.applet.Card(), mias.applet.View());
      }
      hide Deselected, Send, Selected, Counted;
      var closed := mias.applet.Deselect();
    }

    /** Closes whatever channels are open, up to the highest one the program knows, and connects the applets. */
    method TobInitializeWithInterface(seiface: SEInterface) returns (ret: int)
      requires seiface.Idle() && ClosesSucceed(seiface.wire.card)
      requires Created()
      modifies seiface.Repr, mf.applet, mias.applet
      ensures ret == 0 && mias.applet.seiface == seiface && Idle() && mias.keypairsNum == -1
      ensures Card().open.Keys == set k | k in old(seiface.wire.card).open.Keys && !(1 <= k <= MAX_CHANNEL)
      ensures Card().apps == old(seiface.wire.card).apps && Counted(old(seiface.wire.card), Card())
    {
      CloseAllChannels(seiface);
      mias.applet.Init(seiface);
      mf.applet.Init(seiface);
      return 0;
    }

    // ---- Reading objects ----

    /** What reading a PKCS#11 object comes to: selection, PIN and object each have their error. */
    static ghost function P11Outcome(c: Card, v: View, wanted: seq<byte>, pin: seq<byte>): (ret: int)
      requires P11Objects.SaneFiles(FilesOf(c, MIASs.AID), wanted)
    {
      var s := Selected(c, v);
      if !s.ok then ERR_MIAS_READ_OBJECT
      else if !Send(s.card, MIASs.VerifyCommand(s.view.channel, pin)).Succeeded() then ERR_EF_VERIFY_PIN
      else if P11Objects.Object(FilesOf(c, MIASs.AID), wanted).None? then ERR_MIAS_READ_OBJECT
      else 0
    }

    /** Neither the selection nor the PIN check is lost. */
    static ghost predicate Arrives(c: Card, v: View, pin: seq<byte>) {
      var s := Selected(c, v);
      && s.card.Losses() == c.Losses()
      && (s.ok ==> Send(s.card, MIASs.VerifyCommand(s.view.channel, pin)).answer.Some?)
    }

    /** What a successful read delivers: the object's length and, unless only the length is asked for, its bytes. */
    static ghost predicate Delivers(value: seq<byte>, target: array?<byte>, size: int)
      reads target
    {
      size == |value| && (target != null ==> size <= target.Length && target[..size] == value)
    }

    /**
     In a session begun by the selection `s`: the PIN is reported as refused exactly when the card does not
     accept the check, which is the first command; and then nothing follows it but the close of the channel.
     */
    static ghost predicate PinDecides(s: Outcome, verify: Option<seq<byte>>, ret: int, d: Card)
      requires verify.Some? ==> |verify.value| >= 4
    {
      s.ok ==>
        var checked := if verify.Some? then Send(s.card, verify.value) else Sent(s.card, None);
        && (ret == ERR_EF_VERIFY_PIN <==> !checked.Succeeded())
        && (ret == ERR_EF_VERIFY_PIN ==> d == Send(checked.card, Close(s.view.channel)).card)
    }

    ghost predicate Writable(target: array?<byte>)
      reads mias.applet
    {
      target != null ==> target !in mias.applet.Device()
    }

    /**
     The sizes a successful read may report, and a buffer must hold: the object's if the read comes to it,
     or, where commands may be lost, those of all objects with the label.
     */
    static ghost function ReadSizes(c: Card, v: View, wanted: seq<byte>, pin: seq<byte>): set<nat>
      requires P11Objects.SaneFiles(FilesOf(c, MIASs.AID), wanted)
    {
      if !Steady(c) then P11Objects.Sizes(false, FilesOf(c, MIASs.AID), wanted)
      else if P11Outcome(c, v, wanted, pin) == 0 then P11Objects.Sizes(true, FilesOf(c, MIASs.AID), wanted)
      else {}
    }

    /** Behind the PIN check nothing but a missing object is in the way. */
    static lemma ReadSizesInSession(c: Card, v: View, wanted: seq<byte>, pin: seq<byte>)
      requires P11Objects.SaneFiles(FilesOf(c, MIASs.AID), wanted) && Selected(c, v).ok
      ensures Send(Selected(c, v).card, MIASs.VerifyCommand(Selected(c, v).view.channel, pin)).Succeeded() ==>
              ReadSizes(c, v, wanted, pin) == P11Objects.Sizes(Steady(c), FilesOf(c, MIASs.AID), wanted)
    {
      hide Steady, Send, Selected;
    }

    static ghost predicate HoldsP11(c: Card, v: View, wanted: seq<byte>, pin: seq<byte>, obj: array?<byte>) {
      && P11Objects.SaneFiles(FilesOf(c, MIASs.AID), wanted)
      && (obj != null ==> P11Objects.Fits(ReadSizes(c, v, wanted, pin), obj.Length))
    }

    /** `se_p11_read_object`; one session, whatever happens in it. */
    method SeP11ReadObject(wanted: seq<byte>, obj: array?<byte>, pin: seq<byte>) returns (ret: int, size: int)
      requires Idle() && Writable(obj) && |pin| <= 256 && HoldsP11(Card(), mias.applet.View(), wanted, pin, obj)
      modifies Objects(), obj
      ensures mias.applet.seiface == old(mias.applet.seiface) && AfterMias(old(Card()), old(mias.applet.View()))
      ensures ret == 0 ==> size in ReadSizes(old(Card()), old(mias.applet.View()), wanted, pin)
      ensures Card().Losses() == old(Card()).Losses() ==>
        && Arrives(old(Card()), old(mias.applet.View()), pin)
        && ret == P11Outcome(old(Card()), old(mias.applet.View()), wanted, pin)
        && (ret == 0 ==> Delivers(P11Objects.Object(FilesOf(old(Card()), MIASs.AID), wanted).value, obj, size))
      ensures var s := Selected(old(Card()), old(mias.applet.View()));
              PinDecides(s, Some(MIASs.VerifyCommand(s.view.channel, pin)), ret, Card())
    {
      hide Steady, Undisturbed, P11Objects.SaneFiles, P11Objects.Object, P11Objects.Sizes, Selected, Send;
      ghost var c, v := Card(), mias.applet.View();
      ret, size := ERR_MIAS_READ_OBJECT, 0;
      var selected, s := SelectMias(c);
      if selected {
        ReadSizesInSession(c, v, wanted, pin);
        P11Objects.SizesShrink(Steady(c), Steady(s), FilesOf(c, MIASs.AID), wanted);
        ret, size := ReadP11InSession(wanted, obj, pin, c, s);
        SelectedRecord(c, v);
      }
      DeselectMias(c, v, s);
    }

    /** PIN check and object read of `se_p11_read_object`, once the applet is selected. */
    method ReadP11InSession(wanted: seq<byte>, obj: array?<byte>, pin: seq<byte>, ghost c: Card, ghost s: Card) returns (ret: int, size: int)
      requires InMias(c, s) && mias.applet.Card() == s && Writable(obj) && |pin| <= 256
      requires P11Objects.SaneFiles(s.FilesOn(mias.applet.channel), wanted)
      requires obj != null && Send(s, MIASs.VerifyCommand(mias.applet.channel, pin)).Succeeded() ==>
        P11Objects.Fits(P11Objects.Sizes(Steady(s), s.FilesOn(mias.applet.channel), wanted), obj.Length)
      modifies mias.applet.Device(), mias.files, mias`filesNum, obj
      ensures InMias(c, s)
      ensures ret == 0 ==> size in P11Objects.Sizes(Steady(s), s.FilesOn(mias.applet.channel), wanted)
      ensures var checked := Send(s, MIASs.VerifyCommand(mias.applet.channel, pin));
              && (ret == ERR_EF_VERIFY_PIN <==> !checked.Succeeded())
              && (ret == ERR_EF_VERIFY_PIN ==> mias.applet.Card() == checked.card)
      ensures ret in {0, ERR_EF_VERIFY_PIN, ERR_MIAS_READ_OBJECT}
      ensures s.Losses() <= mias.applet.Losses()
      ensures mias.applet.Losses() == s.Losses() ==>
        var o := P11Objects.Object(s.FilesOn(mias.applet.channel), wanted);
        && Send(s, MIASs.VerifyCommand(mias.applet.channel, pin)).answer.Some?
        && (ret == 0 ==> o.Some?) && (ret == ERR_MIAS_READ_OBJECT ==> o.None?)
        && (ret == 0 ==> Delivers(o.value, obj, size))
    {
      hide Steady, Undisturbed, P11Objects.SaneFiles, P11Objects.Object, Send, ClosesSucceed;
      ret, size := ERR_EF_VERIFY_PIN, 0;
      SendCounted(s, MIASs.VerifyCommand(mias.applet.channel, pin));
      var verified := mias.VerifyPin(pin, s);
      if verified {
        var ok, objSize := mias.P11GetObjectByLabel(wanted, obj, s);
        if ok {
          size, ret := objSize, 0;
        } else {
          ret := ERR_MIAS_READ_OBJECT;
        }
      }
    }

    // ---- Elementary files of the MF applet ----

    /** `s` is the card at the start of a session of MF, opened when the card was `c`. */
    ghost predicate InMf(c: Card, s: Card)
      reads mf.applet, mias, mias.applet, mias.keypairs, if mias.applet.seiface == null then {} else {mias.applet.seiface}
    {
      && mf.applet != mias.applet && mf.applet.aid == MFs.AID && mias.applet.aid == MIASs.AID
      && mias.applet.seiface != null && mf.applet.seiface == mias.applet.seiface && !mias.applet.isSelected
      && mias.Valid() && mf.applet.Following(s) && ClosesSucceed(s)
      && mias.NamesCertificates(FilesOf(c, MIASs.AID))
      && mf.applet.channel !in c.open && s.open == c.open[mf.applet.channel := Session(MFs.AID, None)]
      && s.apps == c.apps && s.env == c.env && c.tick <= s.tick
    }

    method SelectMf(ghost c: Card) returns (selected: bool, ghost s: Card)
      requires Idle() && c == Card()
      modifies mf.applet, mf.applet.Device()
      ensures mf.applet.seiface == old(mf.applet.seiface)
      ensures Outcome(s, mf.applet.View(), selected) == Selected(c, old(mf.applet.View())) && mf.applet.Card() == s
      ensures selected ==> InMf(c, s) && s.FilesOn(mf.applet.channel) == FilesOf(c, MFs.AID)
      ensures !selected ==> Restored(c)
      ensures Counted(c, s)
      ensures mias.keypairsNum == old(mias.keypairsNum)
    {
      SelectIdle(c, mf.applet.View());
      SelectCounted(c, mf.applet.View());
      hide Selected;
      s := Selected(c, mf.applet.View()).card;
      selected := mf.applet.Select();
      if selected {
        mf.applet.StartsFollowing();
      }
    }

    /** `deselect`, also when the selection failed. */
    method DeselectMf(ghost c: Card, ghost v: View, ghost s: Card)
      requires v.aid == MFs.AID && !v.selected && ClosesSucceed(c)
      requires Outcome(s, mf.applet.View(), mf.applet.isSelected) == Selected(c, v)
      requires if mf.applet.isSelected then InMf(c, s) else Restored(c) && Card() == s
      modifies mf.applet`isSelected, mf.applet.Device()
      ensures mf.applet.seiface == old(mf.applet.seiface) && AfterMf(c, v)
      ensures Card() == old(Deselected(Card(), mf.applet.View())).card && old(Card()).Losses() <= Card().Losses()
      ensures mias.keypairsNum == old(mias.keypairsNum)
    {
      if mf.applet.isSelected {
        DeselectRestores(c, s, mf.applet.Card(), mf.applet.View());
        SessionEnds(c, v, mf.applet.Card());
        SelectCounted(c, v);
        ClosingCounted(s, mf.applet.Card(), mf.applet.View());
        SendCounted(mf.applet.Card(), Close(mf.applet.channel));
        CountedMore(c, s, Deselected(mf.applet.Card(), mf.applet.View()).card);
      } else {
        NoClose(mf.applet.Card(), mf.applet.View());
      }
      hide Deselected, Send, Selected, Counted;
      var closed := mf.applet.Deselect();
    }

    /** The file is there, announces a size, and is that long unless only its size is asked for. */
    static predicate Readable(files: Files, path: seq<byte>, sizeOnly: bool) {
      path in files && MFs.Size(files[path]).Some? && (sizeOnly || MFs.Size(files[path]).value <= |files[path].content|)
    }

    /** The file, if it is there, announces its size properly, and `data` holds as much. */
    ghost predicate EfFits(files: Files, path: seq<byte>, data: array?<byte>) {
      path in files ==>
        && MFs.Templated(files[path])
        && (data != null && MFs.Size(files[path]).Some? ==> MFs.Size(files[path]).value <= data.Length)
    }

    /** What reading an elementary file comes to once the applet is selected: PIN and file each have their error. */
    static ghost function EfOutcome(s: Card, ch: byte, path: seq<byte>, pin: seq<byte>, sizeOnly: bool): (ret: int) {
      if |pin| > 8 || !Send(s, MFs.VerifyMfCommand(ch, pin)).Succeeded() then ERR_EF_VERIFY_PIN
      else if Readable(s.FilesOn(ch), path, sizeOnly) then 0
      else ERR_EF_READ_OBJECT
    }

    /** A successful read delivers the announced size and, unless only the size is asked for, as many bytes of the file. */
    ghost predicate DeliversFile(files: Files, path: seq<byte>, target: array?<byte>, size: int)
      reads target
    {
      && Readable(files, path, target == null) && size == MFs.Size(files[path]).value
      && (target != null ==> size <= target.Length && target[..size] == files[path].content[..size])
    }

    /**
     What `se_read_ef`, begun at `c` and ended at `d`, returns and delivers. A value it never set is
     returned when the selection fails; otherwise success delivers the file, and if no command was lost
     the outcome is the one above.
     */
    ghost predicate EfResult(c: Card, v: View, d: Card, path: seq<byte>, pin: seq<byte>, target: array?<byte>, ret: int, size: int)
      reads target
    {
      var s := Selected(c, v);
      if !s.ok then size == -1
      else
        && ret in {0, ERR_EF_VERIFY_PIN, ERR_EF_READ_OBJECT}
        && (ret == 0 ==> DeliversFile(FilesOf(c, MFs.AID), path, target, size))
        && (d.Losses() == c.Losses() ==> ret == EfOutcome(s.card, s.view.channel, path, pin, target == null))
    }

    /** Reads an elementary file after checking the PIN. */
    method SeReadEf(efname: seq<byte>, data: array?<byte>, pin: Option<seq<byte>>) returns (ret: int, size: int)
      requires Idle() && Writable(data) && |efname| < 256
      requires EfFits(FilesOf(Card(), MFs.AID), efname, data)
      modifies Objects(), data
      ensures mias.applet.seiface == old(mias.applet.seiface) && Restored(old(Card()))
      ensures mias.keypairsNum == old(mias.keypairsNum)
      ensures pin.None? ==> ret == ERR_EF_VERIFY_PIN && Card() == old(Card())
      ensures pin.Some? ==>
        && AfterMf(old(Card()), old(mf.applet.View()))
        && EfResult(old(Card()), old(mf.applet.View()), Card(), efname, pin.value, data, ret, size)
        && var s := Selected(old(Card()), old(mf.applet.View()));
           PinDecides(s, if |pin.value| <= 8 then Some(MFs.VerifyMfCommand(s.view.channel, pin.value)) else None, ret, Card())
    {
      hide Steady, Undisturbed, Selected, Send;
      ghost var c, v := Card(), mf.applet.View();
      if pin.None? {
        Uncounted(c);
        return ERR_EF_VERIFY_PIN, 0;
      }
      var undetermined: int := *;
      ret, size := undetermined, -1;
      var selected, s := SelectMf(c);
      if selected {
        ret, size := ReadEfInSession(efname, data, pin.value, c, s);
        SelectedRecord(c, v);
      }
      DeselectMf(c, v, s);
    }

    /** PIN check and file read of `se_read_ef`, once the applet is selected. */
    method ReadEfInSession(efname: seq<byte>, data: array?<byte>, pin: seq<byte>, ghost c: Card, ghost s: Card) returns (ret: int, size: int)
      requires InMf(c, s) && mf.applet.Card() == s && Writable(data) && |efname| < 256
      requires EfFits(s.FilesOn(mf.applet.channel), efname, data)
      modifies mf.applet.Device(), data
      ensures InMf(c, s) && ret in {0, ERR_EF_VERIFY_PIN, ERR_EF_READ_OBJECT}
      ensures ret == 0 ==> DeliversFile(s.FilesOn(mf.applet.channel), efname, data, size)
      ensures s.Losses() <= mf.applet.Losses()
      ensures mf.applet.Losses() == s.Losses() ==> ret == EfOutcome(s, mf.applet.channel, efname, pin, data == null)
      ensures var checked := if |pin| <= 8 then Send(s, MFs.VerifyMfCommand(mf.applet.channel, pin)) else Sent(s, None);
              && (ret == ERR_EF_VERIFY_PIN <==> !checked.Succeeded())
              && (ret == ERR_EF_VERIFY_PIN ==> mf.applet.Card() == checked.card)
    {
      hide Steady, Undisturbed, Send, ClosesSucceed;
      ret, size := ERR_EF_VERIFY_PIN, -1;
      if |pin| <= 8 {
        SendCounted(s, MFs.VerifyMfCommand(mf.applet.channel, pin));
      }
      var verified := mf.VerifyPin(pin, s);
      if verified {
        var ok, len := mf.ReadEF(efname, data, s);
        if ok {
          ret, size := 0, len;
        } else {
          ret := ERR_EF_READ_OBJECT;
        }
      }
    }

    // ---- Certificates and keys by path ----

    /** The certificate files are well-formed, and `cert` holds the container's. */
    static ghost predicate CertificateSpace(certain: bool, fs: Files, cid: byte, cert: array?<byte>) {
      && SaneIndex(fs) && SaneCertificates(fs)
      && (cert != null ==> 2 <= cert.Length && P11Objects.Fits(CertificateSizes(certain, fs, cid), cert.Length))
    }

    /** No command is lost from the card `c` on, and what the applet has listed is what these files say. */
    ghost predicate Certain(c: Card, fs: Files)
      reads mias, mias.applet, mias.keypairs, if mias.applet.seiface == null then {} else {mias.applet.seiface}
    {
      Steady(c) && mias.Indexed(fs)
    }

    /**
     What reading a container's certificate comes to when no command is lost: it succeeds exactly when the
     key index names a file of the card, the file is not empty, and what was read is not marked as
     compressed. Even then the whole file is in the buffer.
     */
    static ghost predicate CertificateOutcome(fs: Files, cid: byte, cert: array?<byte>, ret: int, size: int)
      requires SaneIndex(fs)
      reads cert
    {
      var f := CertificateFile(fs, CurrentIndex(fs), cid);
      if f.None? then ret == ERR_BAD_KEY_NAME
      else
        && Walkable(f.value)
        && var total := SizeRead(f.value, 0);
           && (cert != null ==>
                 && 2 <= cert.Length && total <= cert.Length && total <= |f.value.content|
                 && cert[..total] == f.value.content[..total])
           && ret == (if 0 < total && (cert != null ==> cert[..2] != [0x01, 0x00]) then 0 else ERR_BAD_KEY_NAME)
           && (ret == 0 ==> size == total)
    }

    /**
     A certificate is refused, though its file is there and not empty, exactly when what was read is
     marked as compressed; all of it has been written to the caller's buffer by then.
     */
    static lemma RefusedIsWritten(fs: Files, cid: byte, cert: array<byte>, ret: int, size: int)
      requires SaneIndex(fs) && CertificateOutcome(fs, cid, cert, ret, size)
      ensures var f := CertificateFile(fs, CurrentIndex(fs), cid);
              f.Some? && 0 < SizeRead(f.value, 0) ==>
                && (ret != 0 <==> cert[..2] == [0x01, 0x00])
                && var total := SizeRead(f.value, 0);
                   total <= cert.Length && total <= |f.value.content| && cert[..total] == f.value.content[..total]
    {
      hide SaneIndex, CertificateFile, CurrentIndex;
    }

    /** The MIAS branch of `tob_x509_crt_extract_se`. */
    method ReadContainerCertificate(cid: byte, cert: array?<byte>) returns (ret: int, size: int)
      requires Idle() && Writable(cert) && CertificateSpace(Certain(Card(), FilesOf(Card(), MIASs.AID)), FilesOf(Card(), MIASs.AID), cid, cert)
      modifies Objects(), cert
      ensures mias.applet.seiface == old(mias.applet.seiface) && AfterMias(old(Card()), old(mias.applet.View()))
      ensures ret == 0 || ret == ERR_BAD_KEY_NAME
      ensures var fs := FilesOf(old(Card()), MIASs.AID);
              ret == 0 ==> size in CertificateSizes(old(Certain(Card(), fs)), fs, cid)
      ensures var fs := FilesOf(old(Card()), MIASs.AID);
              Card().Losses() == old(Card()).Losses() && old(mias.Indexed(fs)) ==>
                && mias.Indexed(fs)
                && (if Selected(old(Card()), old(mias.applet.View())).ok then CertificateOutcome(fs, cid, cert, ret, size)
                    else ret == ERR_BAD_KEY_NAME)
    {
      hide Steady, Undisturbed, Selected, Send, SaneIndex, SaneCertificates, CertificateSizes, Index, CertificateOutcome;
      ghost var c, v := Card(), mias.applet.View();
      ret, size := ERR_BAD_KEY_NAME, 0;
      var selected, s := SelectMias(c);
      if selected {
        ghost var fs := FilesOf(c, MIASs.AID);
        CertificateSizesShrink(old(Certain(c, fs)), Certain(s, fs), fs, cid);
        ret, size := ReadCertificateInSession(cid, cert, c, s);
      }
      DeselectMias(c, v, s);
    }

    method ReadCertificateInSession(cid: byte, cert: array?<byte>, ghost c: Card, ghost s: Card) returns (ret: int, size: int)
      requires InMias(c, s) && Writable(cert) && CertificateSpace(Certain(s, s.FilesOn(mias.applet.channel)), s.FilesOn(mias.applet.channel), cid, cert)
      modifies mias.applet.Device(), mias.keypairs, mias`keypairsNum, cert
      ensures InMias(c, s)
      ensures ret == 0 || ret == ERR_BAD_KEY_NAME
      ensures var fs := s.FilesOn(mias.applet.channel);
              ret == 0 ==> size in CertificateSizes(old(Certain(s, fs)), fs, cid)
      ensures var fs := s.FilesOn(mias.applet.channel);
              mias.applet.Losses() == old(mias.applet.Losses()) && old(mias.Indexed(fs)) ==>
                mias.Indexed(fs) && CertificateOutcome(fs, cid, cert, ret, size)
      ensures old(mias.applet.Losses()) <= mias.applet.Losses()
    {
      hide Steady, Undisturbed, Send, SaneIndex, SaneCertificates, ClosesSucceed, Index, CertificateFile;
      ret, size := ERR_BAD_KEY_NAME, 0;
      var ok, objSize := mias.GetCertificateByContainerId(cid, cert, s);
      if ok {
        size, ret := objSize, 0;
        assert cert != null && 2 <= cert.Length ==> cert[..2] == [cert[0], cert[1]];
      }
    }

    /** `se_read_object`: a file named in hexadecimal. */
    method SeReadObject(name: seq<byte>, obj: array?<byte>, pin: Option<seq<byte>>) returns (ret: int, size: int)
      requires Idle() && Writable(obj)
      requires EfName(name).Some? ==> EfFits(FilesOf(Card(), MFs.AID), EfName(name).value, obj)
      modifies Objects(), obj
      ensures mias.applet.seiface == old(mias.applet.seiface) && Restored(old(Card()))
      ensures mias.keypairsNum == old(mias.keypairsNum)
      ensures pin.None? || EfName(name).None? ==> ret == ERR_EF_INVALID_NAME && Card() == old(Card())
      ensures pin.Some? && EfName(name).Some? ==>
        && AfterMf(old(Card()), old(mf.applet.View()))
        && EfResult(old(Card()), old(mf.applet.View()), Card(), EfName(name).value, pin.value, obj, ret, size)
    {
      hide Steady, Selected, Send, EfResult;
      Uncounted(Card());
      if pin.None? {
        return ERR_EF_INVALID_NAME, 0;
      }
      if |name| % 2 == 1 || |name| > 64 {
        return ERR_EF_INVALID_NAME, 0;
      }
      var efname := new byte[32];
      var n := AtCommands.HexString2BytesArray(name, |name|, efname);
      assert name[..|name|] == name;
      ret, size := SeReadEf(efname[..n], obj, pin);
    }

    /** What the caller and the card must provide for reading a certificate from `path` into `cert`. */
    ghost predicate Extractable(c: Card, v: View, path: seq<byte>, cert: array?<byte>, pin: Option<seq<byte>>)
      reads mias, mias.applet, mias.keypairs, if mias.applet.seiface == null then {} else {mias.applet.seiface}
    {
      match PlaceOf(path)
      case Elementary(name) => EfName(name).Some? ==> EfFits(FilesOf(c, MFs.AID), EfName(name).value, cert)
      case P11Object(wanted) => pin.Some? && |pin.value| <= 256 && HoldsP11(c, v, wanted, pin.value, cert)
      case Container(number) => CertificateSpace(Certain(c, FilesOf(c, MIASs.AID)), FilesOf(c, MIASs.AID), NumberOf(number), cert)
      case Nowhere => true
    }

    /** `tob_x509_crt_extract_se`: a certificate from a file, a PKCS#11 object or a key container. */
    method X509CrtExtractSe(cert: array?<byte>, path: seq<byte>, pin: Option<seq<byte>>) returns (ret: int, certSize: int)
      requires Idle() && Writable(cert) && Extractable(Card(), mias.applet.View(), path, cert, pin)
      modifies Objects(), cert
      ensures mias.applet.seiface == old(mias.applet.seiface) && Restored(old(Card()))
      ensures var c, v, fs := old(Card()), old(mias.applet.View()), FilesOf(old(Card()), MIASs.AID);
              match PlaceOf(path)
              case Elementary(name) =>
                if pin.None? || EfName(name).None? then ret == ERR_EF_INVALID_NAME
                else EfResult(c, old(mf.applet.View()), Card(), EfName(name).value, pin.value, cert, ret, certSize)
              case P11Object(wanted) =>
                && AfterMias(c, v)
                && (ret == 0 ==> certSize in ReadSizes(c, v, wanted, pin.value))
                && (Card().Losses() == c.Losses() ==>
                      && Arrives(c, v, pin.value)
                      && ret == P11Outcome(c, v, wanted, pin.value)
                      && (ret == 0 ==> Delivers(P11Objects.Object(fs, wanted).value, cert, certSize)))
              case Container(number) =>
                && AfterMias(c, v)
                && (ret == 0 ==> certSize in CertificateSizes(old(Certain(Card(), fs)), fs, NumberOf(number)))
                && (Card().Losses() == c.Losses() && old(mias.Indexed(fs)) ==>
                      && mias.Indexed(fs)
                      && (if Selected(c, v).ok then CertificateOutcome(fs, NumberOf(number), cert, ret, certSize) else ret == ERR_BAD_KEY_NAME))
              case Nowhere => ret == ERR_BAD_KEY_NAME
    {
      hide Steady, Selected, Send, P11Objects.SaneFiles, P11Objects.Object, P11Objects.Sizes, CertificateSizes, ReadSizes,
           CertificateOutcome, EfResult, P11Outcome, MIASs.MIAS.Indexed, SaneCertificates, SaneIndex, OneSession;
      Uncounted(Card());
      match PlaceOf(path)
      case Elementary(name) => ret, certSize := SeReadObject(name, cert, pin);
      case P11Object(wanted) => ret, certSize := SeP11ReadObject(wanted, cert, pin.value);
      case Container(number) =>
        var cid := ParseContainer(number);
        ret, certSize := ReadContainerCertificate(cid, cert);
      case Nowhere => ret, certSize := ERR_BAD_KEY_NAME, 0;
    }

    /** The container number behind the prefix, in 8-bit arithmetic. */
    method ParseContainer(number: seq<byte>) returns (cid: byte)
      ensures cid == NumberOf(number)
    {
      cid := 0;
      var i := 0;
      while i < |number|
        invariant 0 <= i <= |number| && cid == NumberOf(number[..i])
      {
        assert number[..i + 1][..i] == number[..i];
        var n: int, c: int := cid, number[i];
        n := n * 10 % 256;
        cid := (n + c - 0x30) % 256;
        i := i + 1;
      }
      assert number[..i] == number;
    }

    // ---- Public calls ----

    /** The first certificate of the chain stored as `value`, or the chain's length when only a size is asked for. */
    static ghost predicate DeliversCropped(value: seq<byte>, cert: array?<byte>, size: int)
      reads cert
    {
      if cert == null then size == |value|
      else size == Matcher.Cropped(Pem.FOOTER, value) && size <= cert.Length && cert[..size] == value[..size]
    }

    /** One read of an object, begun at `c` and ended at `d`. Unless a command was lost it comes to what the card says. */
    static ghost predicate ReadOnce(c: Card, v: View, d: Card, wanted: seq<byte>, pin: seq<byte>, ret: int)
      requires P11Objects.SaneFiles(FilesOf(c, MIASs.AID), wanted)
    {
      && OneSession(c, v, d)
      && (d.Losses() == c.Losses() ==> Arrives(c, v, pin) && ret == P11Outcome(c, v, wanted, pin))
    }

    /**
     What a call that knows an object under two names does, begun at `c` and ended at `d`: one session,
     which comes to `first` and ends at `again`; if that reports that an object could not be read, a second
     one under the older name, which begins at `again`.
     */
    static ghost predicate TwoNames(c: Card, v: View, first: int, again: Card, d: Card, wanted: seq<byte>, legacy: seq<byte>, pin: seq<byte>, ret: int)
      requires P11Objects.SaneFiles(FilesOf(c, MIASs.AID), wanted) && P11Objects.SaneFiles(FilesOf(c, MIASs.AID), legacy)
    {
      && ReadOnce(c, v, again, wanted, pin, first)
      && if first != ERR_MIAS_READ_OBJECT then d == again && ret == first
         else ReadOnce(again, Selected(c, v).view.(selected := false), d, legacy, pin, ret)
    }

    /** The name the object is read under, and the card then. */
    static function NameRead(first: int, wanted: seq<byte>, legacy: seq<byte>): seq<byte> {
      if first != ERR_MIAS_READ_OBJECT then wanted else legacy
    }

    static function ReadFrom(c: Card, first: int, again: Card): Card {
      if first != ERR_MIAS_READ_OBJECT then c else again
    }

    static lemma ReadUnderFirst(c: Card, v: View, d: Card, wanted: seq<byte>, legacy: seq<byte>, pin: seq<byte>, ret: int)
      requires P11Objects.SaneFiles(FilesOf(c, MIASs.AID), wanted) && P11Objects.SaneFiles(FilesOf(c, MIASs.AID), legacy)
      requires ReadOnce(c, v, d, wanted, pin, ret) && ret != ERR_MIAS_READ_OBJECT
      ensures TwoNames(c, v, ret, d, d, wanted, legacy, pin, ret)
    {
      hide ReadOnce, P11Objects.SaneFiles;
    }

    static lemma ReadUnderSecond(c: Card, v: View, again: Card, d: Card, wanted: seq<byte>, legacy: seq<byte>, pin: seq<byte>, ret: int)
      requires P11Objects.SaneFiles(FilesOf(c, MIASs.AID), wanted) && P11Objects.SaneFiles(FilesOf(c, MIASs.AID), legacy)
      requires ReadOnce(c, v, again, wanted, pin, ERR_MIAS_READ_OBJECT) && again.apps == c.apps
      requires ReadOnce(again, Selected(c, v).view.(selected := false), d, legacy, pin, ret)
      ensures TwoNames(c, v, ERR_MIAS_READ_OBJECT, again, d, wanted, legacy, pin, ret)
    {
      hide ReadOnce, P11Objects.SaneFiles;
    }

    /** Unless a command was lost, `first` and `again` are no free choice: what the card has received determines them. */
    static lemma AgainIsDetermined(c: Card, v: View, f: int, a: Card, g: int, b: Card, d: Card,
                                   wanted: seq<byte>, legacy: seq<byte>, pin: seq<byte>, ret: int)
      requires P11Objects.SaneFiles(FilesOf(c, MIASs.AID), wanted) && P11Objects.SaneFiles(FilesOf(c, MIASs.AID), legacy)
      requires TwoNames(c, v, f, a, d, wanted, legacy, pin, ret) && TwoNames(c, v, g, b, d, wanted, legacy, pin, ret)
      requires d.Losses() == c.Losses()
      ensures f == g && a == b
    {
      var w := Selected(c, v).view.(selected := false);
      SessionCounted(c, v, a);
      SessionCounted(c, v, b);
      Uncounted(d);
      if f == ERR_MIAS_READ_OBJECT {
        SessionCounted(a, w, d);
      }
      if g == ERR_MIAS_READ_OBJECT {
        SessionCounted(b, w, d);
      }
      hide Selected, OneSession, P11Outcome, Arrives, Counted, P11Objects.SaneFiles;
      assert Counted(a, d) && Counted(b, d);
      CountedLosses(a, d);
      CountedLosses(b, d);
      CountedLosses(c, a);
      CountedLosses(c, b);
      SessionIsDetermined(c, v, a, b, d);
    }

    static lemma CountedLosses(c: Card, d: Card)
      requires Counted(c, d)
      ensures c.Losses() <= d.Losses()
    {
    }

    /** The sizes that a read under the second name may report. */
    static ghost function LegacySizes(c: Card, v: View, wanted: seq<byte>, legacy: seq<byte>, pin: seq<byte>): set<nat>
      requires P11Objects.SaneFiles(FilesOf(c, MIASs.AID), wanted) && P11Objects.SaneFiles(FilesOf(c, MIASs.AID), legacy)
    {
      if Steady(c) && P11Outcome(c, v, wanted, pin) != ERR_MIAS_READ_OBJECT then {}
      else P11Objects.Sizes(Steady(c), FilesOf(c, MIASs.AID), legacy)
    }

    /** Both objects can be read, and `target` holds with `spare` bytes more whichever comes to be read. */
    static ghost predicate HoldsEither(c: Card, v: View, wanted: seq<byte>, legacy: seq<byte>, pin: seq<byte>, target: array?<byte>, spare: nat) {
      var fs := FilesOf(c, MIASs.AID);
      && P11Objects.SaneFiles(fs, wanted) && P11Objects.SaneFiles(fs, legacy)
      && (target != null ==>
            && spare <= target.Length
            && P11Objects.Fits(ReadSizes(c, v, wanted, pin) + LegacySizes(c, v, wanted, legacy, pin), target.Length - spare))
    }

    /** The second read reports one of these sizes, and the buffer holds them. */
    static lemma BeforeLegacy(c: Card, v: View, d: Card, w: View, wanted: seq<byte>, legacy: seq<byte>, pin: seq<byte>, target: array?<byte>, spare: nat)
      requires HoldsEither(c, v, wanted, legacy, pin, target, spare) && d.apps == c.apps && Counted(c, d)
      requires ReadOnce(c, v, d, wanted, pin, ERR_MIAS_READ_OBJECT)
      ensures ReadSizes(d, w, legacy, pin) <= LegacySizes(c, v, wanted, legacy, pin)
      ensures spare == 0 ==> HoldsP11(d, w, legacy, pin, target)
    {
      hide Steady, P11Outcome, P11Objects.SaneFiles, P11Objects.Sizes, OneSession;
      P11Objects.SizesShrink(Steady(c), Steady(d), FilesOf(c, MIASs.AID), legacy);
    }

    /** A PKCS#11 object by its path. */
    method ExtractNamed(cert: array?<byte>, wanted: seq<byte>, pin: seq<byte>) returns (ret: int, certSize: int)
      requires Idle() && Writable(cert) && |pin| <= 256 && HoldsP11(Card(), mias.applet.View(), wanted, pin, cert)
      modifies Objects(), cert
      ensures mias.applet.seiface == old(mias.applet.seiface) && AfterMias(old(Card()), old(mias.applet.View()))
      ensures ret == 0 ==> certSize in ReadSizes(old(Card()), old(mias.applet.View()), wanted, pin)
      ensures ReadOnce(old(Card()), old(mias.applet.View()), Card(), wanted, pin, ret)
      ensures ret == 0 && Card().Losses() == old(Card()).Losses() ==>
        var o := P11Objects.Object(FilesOf(old(Card()), MIASs.AID), wanted);
        o.Some? && Delivers(o.value, cert, certSize)
    {
      PlaceOfP11(wanted);
      ObjectWhenRead(Card(), mias.applet.View(), wanted, pin);
      hide Steady, Selected, Send, P11Objects.SaneFiles, P11Objects.Object, P11Objects.Sizes, ReadSizes, P11Outcome, Arrives, PlaceOf, OneSession;
      ret, certSize := X509CrtExtractSe(cert, P11_PREFIX + wanted, Some(pin));
    }

    /** What reading an object under either name comes to, and delivers unless a command was lost. */
    static ghost predicate ReadEither(c: Card, v: View, first: int, again: Card, d: Card, wanted: seq<byte>, legacy: seq<byte>, pin: seq<byte>,
                               target: array?<byte>, ret: int, size: int)
      requires P11Objects.SaneFiles(FilesOf(c, MIASs.AID), wanted) && P11Objects.SaneFiles(FilesOf(c, MIASs.AID), legacy)
      reads target
    {
      && TwoNames(c, v, first, again, d, wanted, legacy, pin, ret)
      && (ret == 0 && d.Losses() == ReadFrom(c, first, again).Losses() ==>
            var o := P11Objects.Object(FilesOf(c, MIASs.AID), NameRead(first, wanted, legacy));
            o.Some? && Delivers(o.value, target, size))
    }

    /** The same for a key. */
    static ghost predicate ReadKeyEither(c: Card, v: View, first: int, again: Card, d: Card, wanted: seq<byte>, legacy: seq<byte>, pin: seq<byte>,
                                  target: array?<byte>, ret: int, size: int)
      requires P11Objects.SaneFiles(FilesOf(c, MIASs.AID), wanted) && P11Objects.SaneFiles(FilesOf(c, MIASs.AID), legacy)
      reads target
    {
      && TwoNames(c, v, first, again, d, wanted, legacy, pin, ret)
      && (ret == 0 && d.Losses() == ReadFrom(c, first, again).Losses() ==>
            var o := P11Objects.Object(FilesOf(c, MIASs.AID), NameRead(first, wanted, legacy));
            o.Some? && DeliversKey(o.value, target, size))
    }

    /** The stored chain of the available certificate; the older name is tried when the first read reports that it could not read an object. */
    method ExtractAvailable(cert: array?<byte>, pin: seq<byte>) returns (ret: int, certSize: int, ghost first: int, ghost again: Card)
      requires Idle() && Writable(cert) && |pin| <= 256
      requires HoldsEither(Card(), mias.applet.View(), CERT_AVAILABLE, CERT_TYPE_A, pin, cert, 0)
      modifies Objects(), cert
      ensures mias.applet.seiface == old(mias.applet.seiface) && Restored(old(Card()))
      ensures var c, v := old(Card()), old(mias.applet.View());
              && (ret == 0 ==> certSize in ReadSizes(c, v, CERT_AVAILABLE, pin) + LegacySizes(c, v, CERT_AVAILABLE, CERT_TYPE_A, pin))
              && ReadEither(c, v, first, again, Card(), CERT_AVAILABLE, CERT_TYPE_A, pin, cert, ret, certSize)
    {
      ghost var c, v := Card(), mias.applet.View();
      ObjectWhenRead(c, v, CERT_AVAILABLE, pin);
      hide Selected, Send, P11Objects.SaneFiles, P11Objects.Object, P11Objects.Sizes, P11Outcome, Arrives, OneSession, Steady, ReadOnce,
           ReadSizes, LegacySizes, Counted, ClosesSucceed, MIASs.MIAS.Valid, MIASs.MIAS.NamesCertificates, TwoNames, Delivers;
      ret, certSize := ExtractNamed(cert, CERT_AVAILABLE, pin);
      first, again := ret, Card();
      if ret == ERR_MIAS_READ_OBJECT {
        BeforeLegacy(c, v, again, mias.applet.View(), CERT_AVAILABLE, CERT_TYPE_A, pin, cert, 0);
        ret, certSize := ExtractNamed(cert, CERT_TYPE_A, pin);
        CountedMore(c, again, Card());
        ReadUnderSecond(c, v, again, Card(), CERT_AVAILABLE, CERT_TYPE_A, pin, ret);
      } else {
        ReadUnderFirst(c, v, again, CERT_AVAILABLE, CERT_TYPE_A, pin, ret);
      }
    }

    /** The available certificate: the first one of the stored chain, or the chain's size when only that is asked for. */
    method TobExtractAvailableCertificate(cert: array?<byte>, pin: seq<byte>) returns (ret: int, certSize: int, ghost first: int, ghost again: Card)
      requires Idle() && Writable(cert) && |pin| <= 256
      requires HoldsEither(Card(), mias.applet.View(), CERT_AVAILABLE, CERT_TYPE_A, pin, cert, 0)
      modifies Objects(), cert
      ensures mias.applet.seiface == old(mias.applet.seiface) && Restored(old(Card()))
      ensures var c, v := old(Card()), old(mias.applet.View());
              && (ret == 0 && cert == null ==>
                    certSize in ReadSizes(c, v, CERT_AVAILABLE, pin) + LegacySizes(c, v, CERT_AVAILABLE, CERT_TYPE_A, pin))
              && TwoNames(c, v, first, again, Card(), CERT_AVAILABLE, CERT_TYPE_A, pin, ret)
              && (ret == 0 && Card().Losses() == ReadFrom(c, first, again).Losses() ==>
                    var o := P11Objects.Object(FilesOf(c, MIASs.AID), NameRead(first, CERT_AVAILABLE, CERT_TYPE_A));
                    o.Some? && DeliversCropped(o.value, cert, certSize))
    {
      hide Selected, Send, P11Objects.SaneFiles, P11Objects.Object, P11Objects.Sizes, P11Outcome, Arrives, OneSession, Steady,
           ReadSizes, LegacySizes, Counted, ClosesSucceed, MIASs.MIAS.Valid, MIASs.MIAS.NamesCertificates, TwoNames, NameRead;
      ret, certSize, first, again := ExtractAvailable(cert, pin);
      if ret == 0 && cert != null {
        certSize := Pem.CropPemChain(cert, certSize);
      }
    }

    static lemma ObjectWhenRead(c: Card, v: View, wanted: seq<byte>, pin: seq<byte>)
      requires P11Objects.SaneFiles(FilesOf(c, MIASs.AID), wanted)
      ensures P11Outcome(c, v, wanted, pin) == 0 ==> P11Objects.Object(FilesOf(c, MIASs.AID), wanted).Some?
      ensures P11Outcome(c, v, wanted, pin) in {0, ERR_MIAS_READ_OBJECT, ERR_EF_VERIFY_PIN}
    {
    }

    /** The key with the trailing zero byte the SDK adds to it. */
    static ghost predicate DeliversKey(value: seq<byte>, pk: array?<byte>, size: int)
      reads pk
    {
      size == |value| + 1 && (pk != null ==> size <= pk.Length && pk[..size] == value + [0])
    }

    ghost predicate DeliversFileKey(files: Files, path: seq<byte>, pk: array?<byte>, size: int)
      reads pk
    {
      && Readable(files, path, pk == null) && size == MFs.Size(files[path]).value + 1
      && (pk != null ==> size <= pk.Length && pk[..size] == files[path].content[..size - 1] + [0])
    }

    /**
     What must hold for reading a key from `path`; the zero byte needs one byte more than the object. A
     file is read into a buffer only when the MF applet can be selected: otherwise the program returns a
     value it never set, and if it takes that for success writes the zero byte in front of the buffer.
     */
    ghost predicate KeyExtractable(c: Card, mfView: View, v: View, path: seq<byte>, pk: array?<byte>, pin: Option<seq<byte>>) {
      match PlaceOf(path)
      case Elementary(name) =>
        var fs := FilesOf(c, MFs.AID);
        EfName(name).Some? ==>
          && EfFits(fs, EfName(name).value, pk)
          && (pk != null && pin.Some? ==> Selected(c, mfView).ok)
          && (pk != null && EfName(name).value in fs && MFs.Size(fs[EfName(name).value]).Some? ==>
                MFs.Size(fs[EfName(name).value]).value < pk.Length)
      case P11Object(wanted) =>
        pin.Some? && |pin.value| <= 256 && HoldsKey(c, v, wanted, pin.value, pk)
      case _ => true
    }

    /** What reading a key from a file comes to, as for any file, with one byte more. */
    ghost predicate KeyFileResult(c: Card, v: View, d: Card, path: seq<byte>, pin: seq<byte>, pk: array?<byte>, ret: int, size: int)
      reads pk
    {
      var s := Selected(c, v);
      s.ok ==>
        && ret in {0, ERR_EF_VERIFY_PIN, ERR_EF_READ_OBJECT}
        && (ret == 0 ==> DeliversFileKey(FilesOf(c, MFs.AID), path, pk, size))
        && (d.Losses() == c.Losses() ==> ret == EfOutcome(s.card, s.view.channel, path, pin, pk == null))
    }

    /** `tob_pk_extract_se`: a key from a file or a PKCS#11 object, with a zero byte added. */
    method PkExtractSe(pk: array?<byte>, path: seq<byte>, pin: Option<seq<byte>>) returns (ret: int, pkSize: int)
      requires Idle() && Writable(pk) && KeyExtractable(Card(), mf.applet.View(), mias.applet.View(), path, pk, pin)
      modifies Objects(), pk
      ensures mias.applet.seiface == old(mias.applet.seiface) && Restored(old(Card()))
      ensures var c, v, fs := old(Card()), old(mias.applet.View()), FilesOf(old(Card()), MIASs.AID);
              match PlaceOf(path)
              case P11Object(wanted) =>
                && AfterMias(c, v)
                && (ret == 0 ==> pkSize - 1 in ReadSizes(c, v, wanted, pin.value))
                && (Card().Losses() == c.Losses() ==>
                      && Arrives(c, v, pin.value)
                      && ret == P11Outcome(c, v, wanted, pin.value)
                      && (ret == 0 ==> DeliversKey(P11Objects.Object(fs, wanted).value, pk, pkSize)))
              case Elementary(name) =>
                if pin.None? || EfName(name).None? then ret == ERR_EF_INVALID_NAME
                else KeyFileResult(c, old(mf.applet.View()), Card(), EfName(name).value, pin.value, pk, ret, pkSize)
              case _ => ret == ERR_BAD_KEY_NAME
    {
      hide Selected, Send, P11Objects.SaneFiles, P11Objects.Object, P11Objects.Sizes, P11Outcome, Steady, OneSession, EfOutcome,
           ReadSizes, MFs.Size, MFs.Templated;
      Uncounted(Card());
      ret, pkSize := ERR_BAD_KEY_NAME, 0;
      match PlaceOf(path) {
        case Elementary(name) => ret, pkSize := SeReadObject(name, pk, pin);
        case P11Object(wanted) => ret, pkSize := SeP11ReadObject(wanted, pk, pin.value);
        case _ =>
      }
      if ret == 0 {
        pkSize := AppendZero(pk, pkSize);
      }
    }

    method AppendZero(pk: array?<byte>, size: int) returns (n: int)
      requires pk != null ==> 0 <= size < pk.Length
      modifies pk
      ensures n == size + 1 && (pk != null ==> pk[..n] == old(pk[..size]) + [0])
    {
      if pk != null {
        pk[size] := 0;
      }
      n := size + 1;
    }

    /** The same for a key, which is one byte longer than its object. */
    static ghost predicate HoldsKey(c: Card, v: View, wanted: seq<byte>, pin: seq<byte>, pk: array?<byte>) {
      && P11Objects.SaneFiles(FilesOf(c, MIASs.AID), wanted)
      && (pk != null ==> 1 <= pk.Length && P11Objects.Fits(ReadSizes(c, v, wanted, pin), pk.Length - 1))
    }

    static lemma HoldsKeyEither(c: Card, v: View, d: Card, w: View, wanted: seq<byte>, legacy: seq<byte>, pin: seq<byte>, pk: array?<byte>)
      requires HoldsEither(c, v, wanted, legacy, pin, pk, 1)
      ensures HoldsKey(c, v, wanted, pin, pk)
      ensures d.apps == c.apps && ReadSizes(d, w, legacy, pin) <= LegacySizes(c, v, wanted, legacy, pin) ==> HoldsKey(d, w, legacy, pin, pk)
    {
      hide P11Objects.SaneFiles, ReadSizes, LegacySizes;
    }

    /** A PKCS#11 object by its path, as a key. */
    method ExtractNamedKey(pk: array?<byte>, wanted: seq<byte>, pin: seq<byte>) returns (ret: int, pkSize: int)
      requires Idle() && Writable(pk) && |pin| <= 256 && HoldsKey(Card(), mias.applet.View(), wanted, pin, pk)
      modifies Objects(), pk
      ensures mias.applet.seiface == old(mias.applet.seiface) && AfterMias(old(Card()), old(mias.applet.View()))
      ensures ret == 0 ==> pkSize - 1 in ReadSizes(old(Card()), old(mias.applet.View()), wanted, pin)
      ensures ReadOnce(old(Card()), old(mias.applet.View()), Card(), wanted, pin, ret)
      ensures ret == 0 && Card().Losses() == old(Card()).Losses() ==>
        var o := P11Objects.Object(FilesOf(old(Card()), MIASs.AID), wanted);
        o.Some? && DeliversKey(o.value, pk, pkSize)
    {
      PlaceOfP11(wanted);
      ObjectWhenRead(Card(), mias.applet.View(), wanted, pin);
      hide Steady, Selected, Send, P11Objects.SaneFiles, P11Objects.Object, P11Objects.Sizes, ReadSizes, P11Outcome, Arrives, PlaceOf, OneSession;
      ret, pkSize := PkExtractSe(pk, P11_PREFIX + wanted, Some(pin));
    }

    /** `tob_extract_available_private_key_der`: the stored key, under either name. */
    method TobExtractAvailablePrivateKeyDer(pk: array?<byte>, pin: seq<byte>) returns (ret: int, pkSize: int, ghost first: int, ghost again: Card)
      requires Idle() && Writable(pk) && |pin| <= 256
      requires HoldsEither(Card(), mias.applet.View(), PRIV_AVAILABLE, PRIV_TYPE_A, pin, pk, 1)
      modifies Objects(), pk
      ensures mias.applet.seiface == old(mias.applet.seiface) && Restored(old(Card()))
      ensures var c, v := old(Card()), old(mias.applet.View());
              && (ret == 0 ==> pkSize - 1 in ReadSizes(c, v, PRIV_AVAILABLE, pin) + LegacySizes(c, v, PRIV_AVAILABLE, PRIV_TYPE_A, pin))
              && ReadKeyEither(c, v, first, again, Card(), PRIV_AVAILABLE, PRIV_TYPE_A, pin, pk, ret, pkSize)
    {
      hide Selected, Send, P11Objects.SaneFiles, P11Objects.Object, P11Objects.Sizes, P11Outcome, Arrives, OneSession, Steady, ReadOnce,
           ReadSizes, LegacySizes, Counted, ClosesSucceed, MIASs.MIAS.Valid, MIASs.MIAS.NamesCertificates, TwoNames, DeliversKey, HoldsKey,
           P11Objects.Fits;
      ghost var c, v := Card(), mias.applet.View();
      HoldsKeyEither(c, v, c, v, PRIV_AVAILABLE, PRIV_TYPE_A, pin, pk);
      ret, pkSize := ExtractNamedKey(pk, PRIV_AVAILABLE, pin);
      first, again := ret, Card();
      if ret == ERR_MIAS_READ_OBJECT {
        BeforeLegacy(c, v, again, mias.applet.View(), PRIV_AVAILABLE, PRIV_TYPE_A, pin, pk, 1);
        HoldsKeyEither(c, v, again, mias.applet.View(), PRIV_AVAILABLE, PRIV_TYPE_A, pin, pk);
        ret, pkSize := ExtractNamedKey(pk, PRIV_TYPE_A, pin);
        CountedMore(c, again, Card());
        ReadUnderSecond(c, v, again, Card(), PRIV_AVAILABLE, PRIV_TYPE_A, pin, ret);
      } else {
        ReadUnderFirst(c, v, again, PRIV_AVAILABLE, PRIV_TYPE_A, pin, ret);
      }
    }

    /** The available private key in DER and, when asked for, PEM form; the PEM is of the DER with its added zero byte. */
    method TobExtractAvailablePrivateKey(pem: array?<byte>, wantPemSize: bool, der: array?<byte>, pin: seq<byte>)
      returns (ret: int, pemSize: int, derSize: int, ghost first: int, ghost again: Card)
      requires Idle() && Writable(der) && Writable(pem) && |pin| <= 256
      requires HoldsEither(Card(), mias.applet.View(), PRIV_AVAILABLE, PRIV_TYPE_A, pin, der, 1)
      requires der != null && pem != null ==>
        && der != pem
        && PemFits(ReadSizes(Card(), mias.applet.View(), PRIV_AVAILABLE, pin)
                   + LegacySizes(Card(), mias.applet.View(), PRIV_AVAILABLE, PRIV_TYPE_A, pin), 1, Pem.RSA_PRIVATE_KEY, pem.Length)
      modifies Objects(), der, pem
      ensures mias.applet.seiface == old(mias.applet.seiface) && Restored(old(Card()))
      ensures ret == 0 && wantPemSize ==> 0 <= derSize && pemSize == Pem.DerToPemLen(derSize, Pem.RSA_PRIVATE_KEY)
      ensures ret == 0 && wantPemSize && der != null && pem != null ==>
        derSize <= der.Length && pemSize <= pem.Length && pem[..pemSize] == Pem.PemText(Pem.RSA_PRIVATE_KEY, der[..derSize])
      ensures var c, v := old(Card()), old(mias.applet.View());
              ret == 0 ==> derSize - 1 in ReadSizes(c, v, PRIV_AVAILABLE, pin) + LegacySizes(c, v, PRIV_AVAILABLE, PRIV_TYPE_A, pin)
      ensures ReadKeyEither(old(Card()), old(mias.applet.View()), first, again, Card(), PRIV_AVAILABLE, PRIV_TYPE_A, pin, der, ret, derSize)
    {
      hide Selected, Send, P11Objects.SaneFiles, P11Objects.Object, P11Objects.Sizes, Pem.DerToPemLen, Pem.PemText,
           P11Outcome, OneSession, Steady, ReadSizes, LegacySizes, Counted, ClosesSucceed, MIASs.MIAS.Valid,
           MIASs.MIAS.NamesCertificates, TwoNames, NameRead, DeliversKey;
      ret, derSize, first, again := TobExtractAvailablePrivateKeyDer(der, pin);
      pemSize := 0;
      if ret == 0 {
        pemSize := ToPem(Pem.RSA_PRIVATE_KEY, der, derSize, pem, wantPemSize);
      }
    }

    /** A PEM buffer of `n` bytes holds the text of every DER string of these sizes, `extra` bytes longer. */
    static ghost predicate PemFits(sizes: set<nat>, extra: nat, header: seq<byte>, n: nat) {
      forall k :: k in sizes ==> Pem.DerToPemLen(k + extra, header) <= n
    }

    /** The PEM form of `der` when all buffers are given, its size when only that is asked for. */
    method ToPem(header: seq<byte>, der: array?<byte>, derSize: nat, pem: array?<byte>, wantPemSize: bool) returns (pemSize: int)
      requires der != null && pem != null ==>
        der != pem && derSize <= der.Length && Pem.DerToPemLen(derSize, header) <= pem.Length
      modifies pem
      ensures wantPemSize ==> pemSize == Pem.DerToPemLen(derSize, header)
      ensures wantPemSize && der != null && pem != null ==>
        pemSize <= pem.Length && pem[..pemSize] == Pem.PemText(header, der[..derSize])
      ensures !wantPemSize && pem != null ==> pem[..] == old(pem[..])
    {
      pemSize := 0;
      if der != null && pem != null && wantPemSize {
        pemSize := Pem.ConvertDerToPem(header, der, derSize, pem);
      } else if wantPemSize {
        pemSize := Pem.DerToPemLen(derSize, header);
      }
    }

    /** The signing certificate, of container 0, in DER and, when asked for, PEM form. */
    method TobExtractSigningCertificate(pem: array?<byte>, wantPemSize: bool, der: array?<byte>, pin: Option<seq<byte>>)
      returns (ret: int, pemSize: int, derSize: int)
      requires Idle() && Writable(der) && Writable(pem) && CertificateSpace(Certain(Card(), FilesOf(Card(), MIASs.AID)), FilesOf(Card(), MIASs.AID), 0, der)
      requires der != null && pem != null ==>
        var fs := FilesOf(Card(), MIASs.AID);
        der != pem && PemFits(CertificateSizes(Certain(Card(), fs), fs, 0), 0, Pem.CERTIFICATE, pem.Length)
      modifies Objects(), der, pem
      ensures mias.applet.seiface == old(mias.applet.seiface) && AfterMias(old(Card()), old(mias.applet.View()))
      ensures ret == 0 && wantPemSize ==> 0 <= derSize && pemSize == Pem.DerToPemLen(derSize, Pem.CERTIFICATE)
      ensures var fs := FilesOf(old(Card()), MIASs.AID);
              ret == 0 ==> derSize in CertificateSizes(old(Certain(Card(), fs)), fs, 0)
      ensures ret == 0 && wantPemSize && der != null && pem != null ==>
        derSize <= der.Length && pemSize <= pem.Length && pem[..pemSize] == Pem.PemText(Pem.CERTIFICATE, der[..derSize])
      ensures var fs := FilesOf(old(Card()), MIASs.AID);
              Card().Losses() == old(Card()).Losses() && old(mias.Indexed(fs)) ==>
                && mias.Indexed(fs)
                && (if Selected(old(Card()), old(mias.applet.View())).ok then CertificateOutcome(fs, 0, der, ret, derSize)
                    else ret == ERR_BAD_KEY_NAME)
    {
      hide Selected, Send, SaneIndex, SaneCertificates, CertificateSizes, CertificateOutcome, MIASs.MIAS.Indexed, Steady,
           Pem.DerToPemLen, Pem.PemText, OneSession;
      PlaceOfContainer([0x30]);
      ContainerZero();
      hide PlaceOf, NumberOf;
      ret, derSize := X509CrtExtractSe(der, MIAS_PREFIX + [0x30], pin);
      pemSize := 0;
      if ret == 0 {
        pemSize := ToPem(Pem.CERTIFICATE, der, derSize, pem, wantPemSize);
      }
    }

    lemma ContainerZero()
      ensures NumberOf([0x30]) == 0
    {
      assert [0x30][..0] == [];
    }

    /** The card with channel `ch` open that has come to choice `t` and received `r`. */
    static ghost function At(c: Card, t: nat, r: Conversation, ch: byte): Card {
      c.(tick := t, received := r, open := map[ch := Session(MIASs.AID, None)])
    }

    static ghost predicate Finishes(d: Card, ch: byte, n: nat, size: nat) {
      Pso.Ends(d, ch, n) && |Pso.AllData(d, ch, n + 1)| <= size
    }

    /** Every chain of answers that promise more comes to an end, and what it carries fits a buffer of `size` bytes. */
    static ghost predicate AnswersEnd(c: Card, size: nat) {
      forall t: nat, r: Conversation, ch: byte :: c.tick <= t && c.received <= r && ch in {1, 2, 3} ==>
        ComesToAnEnd(At(c, t, r, ch), ch, size)
    }

    static ghost predicate ComesToAnEnd(d: Card, ch: byte, size: nat) {
      exists n: nat :: Finishes(d, ch, n, size)
    }

    /** How many answers promise more in the chain begun at `d`. */
    static lemma AnswerCount(c: Card, d: Card, ch: byte, size: nat) returns (n: nat)
      requires Counted(c, d) && ch in d.open && ch in {1, 2, 3} && AnswersEnd(c, size)
      ensures Finishes(d, ch, n, size)
    {
      var e := At(c, d.tick, d.received, ch);
      assert ComesToAnEnd(e, ch, size);
      n :| Finishes(e, ch, n, size);
      Pso.SameEnds(d, e, ch, n);
      Pso.SameData(d, e, ch, n + 1);
    }

    /** The algorithm's digest length is at most that of the hash given. */
    static predicate HashFits(algorithm: byte, hash: seq<byte>) {
      var l := MIASs.MIAS.DigestLength(algorithm / 16 * 16);
      l.Some? ==> l.value <= |hash|
    }

    /** The card's reply to the digest, after PIN check and choice of algorithm and key, if they come to that. */
    static ghost function DigestSent(d: Card, ch: byte, algorithm: byte, kid: byte, hash: seq<byte>, pin: seq<byte>): Option<Sent>
      requires HashFits(algorithm, hash)
    {
      var verified, l := Send(d, MIASs.VerifyCommand(ch, pin)), MIASs.MIAS.DigestLength(algorithm / 16 * 16);
      if !verified.Succeeded() then None
      else
        var chosen := Send(verified.card, MIASs.InitCommand(ch, 0xB6, algorithm, kid));
        if !chosen.Succeeded() || l.None? then None else Some(Send(chosen.card, MIASs.DigestCommand(ch, hash[..l.value])))
    }

    /**
     Signing with the key `kid` on the card `d`: PIN check, choice of algorithm and key, digest, and the
     chain of answers that carry the signature, whose last is the `n`-th. The first step that fails ends it.
     */
    static ghost function Signing(d: Card, ch: byte, algorithm: byte, kid: byte, hash: seq<byte>, pin: seq<byte>, n: nat): Performed
      requires HashFits(algorithm, hash)
    {
      var verified := Send(d, MIASs.VerifyCommand(ch, pin));
      if !verified.Succeeded() then Performed(verified.card, ERR_EF_VERIFY_PIN)
      else
        var chosen := Send(verified.card, MIASs.InitCommand(ch, 0xB6, algorithm, kid));
        var digest := DigestSent(d, ch, algorithm, kid, hash, pin);
        if digest.None? then Performed(chosen.card, ERR_BAD_KEY_NAME)
        else if !digest.value.Succeeded() then Performed(digest.value.card, ERR_BAD_KEY_NAME)
        else Performed(Pso.Collected(digest.value.card, ch, n).card,
                       if Pso.Completes(digest.value.card, ch, n) then 0 else ERR_BAD_KEY_NAME)
    }

    /** `n` is where the chain ends, if it comes to that. */
    static ghost predicate SigningEnds(d: Card, ch: byte, algorithm: byte, kid: byte, hash: seq<byte>, pin: seq<byte>, n: nat)
      requires HashFits(algorithm, hash)
    {
      var digest := DigestSent(d, ch, algorithm, kid, hash, pin);
      digest.Some? && digest.value.Succeeded() ==> Pso.Ends(digest.value.card, ch, n)
    }

    /** The signature is all that the chain carries. */
    static ghost predicate DeliversSignature(s: Card, ch: byte, n: nat, signature: array<byte>, size: int)
      reads signature
    {
      var all := Pso.AllData(s, ch, n + 1);
      |all| <= signature.Length && signature[..|all|] == all && size == |all| % 0x10000
    }

    /** `d` is the card of the session begun at `s` once the key pairs are listed, which only reads: `s` itself if they were listed before. */
    static ghost predicate OnceListed(s: Card, d: Card, ch: byte, listed: bool) {
      Undisturbed(s, d, ch) && Looked(s, d) && (listed ==> d == s)
    }

    /** The card `f` has gone on from `d` with the PIN check. */
    static ghost predicate GoesOn(d: Card, ch: byte, pin: seq<byte>, f: Card) {
      d.received + [MIASs.VerifyCommand(ch, pin)] <= f.received
    }

    static lemma SigningGoesOn(d: Card, ch: byte, algorithm: byte, kid: byte, hash: seq<byte>, pin: seq<byte>, n: nat)
      requires HashFits(algorithm, hash) && ch in d.open && ch in {1, 2, 3}
      ensures Send(d, MIASs.VerifyCommand(ch, pin)).answer.Some? ==>
              GoesOn(d, ch, pin, Send(Signing(d, ch, algorithm, kid, hash, pin, n).card, Close(ch)).card)
    {
      hide Undisturbed, Steady, Pso.Collected, Pso.Completes;
      var verify, init := MIASs.VerifyCommand(ch, pin), MIASs.InitCommand(ch, 0xB6, algorithm, kid);
      RoutedClass(0x00, ch);
      var verified := Send(d, verify);
      SendOpaque(d, verify, ch);
      var chosen := Send(verified.card, init);
      SendOpaque(verified.card, init, ch);
      DigestReceived(chosen.card, ch, algorithm, hash, n);
      SendCounted(Signing(d, ch, algorithm, kid, hash, pin, n).card, Close(ch));
      hide Send, MIASs.VerifyCommand, MIASs.InitCommand, MIASs.DigestCommand;
    }

    static lemma DigestReceived(c: Card, ch: byte, algorithm: byte, hash: seq<byte>, n: nat)
      requires HashFits(algorithm, hash) && ch in c.open && ch in {1, 2, 3}
      ensures var l := MIASs.MIAS.DigestLength(algorithm / 16 * 16);
              l.Some? ==>
                var d := Send(c, MIASs.DigestCommand(ch, hash[..l.value])).card;
                c.received <= d.received <= Pso.Collected(d, ch, n).card.received
    {
      hide Undisturbed, Steady, Pso.Collected;
      var l := MIASs.MIAS.DigestLength(algorithm / 16 * 16);
      if l.Some? {
        RoutedClass(0x00, ch);
        var digest := MIASs.DigestCommand(ch, hash[..l.value]);
        SendOpaque(c, digest, ch);
        CollectedReceived(Send(c, digest).card, ch, n);
      }
    }

    static lemma CollectedReceived(c: Card, ch: byte, n: nat)
      requires ch in c.open && ch < 4
      ensures c.received <= Pso.Collected(c, ch, n).card.received
    {
      Pso.CollectedStays(c, ch, n);
    }

    static lemma PlainReceived(c: Card, ch: byte, cipher: seq<byte>)
      requires ch in c.open && ch < 4
      ensures c.received <= Pso.Decipher(c, ch, cipher).card.received
    {
      Pso.DeciphererHeard(c, ch, cipher);
      hide Pso.Decipher;
    }

    static lemma DecryptingGoesOn(d: Card, ch: byte, kid: byte, cipher: seq<byte>, pin: seq<byte>)
      requires ch in d.open && ch in {1, 2, 3}
      ensures Send(d, MIASs.VerifyCommand(ch, pin)).answer.Some? ==>
              GoesOn(d, ch, pin, Send(Decrypting(d, ch, kid, cipher, pin).card, Close(ch)).card)
    {
      hide Undisturbed, Steady, Pso.Decipher;
      var verify, init := MIASs.VerifyCommand(ch, pin), MIASs.InitCommand(ch, 0xB8, 0x1A, kid);
      RoutedClass(0x00, ch);
      var verified := Send(d, verify);
      SendOpaque(d, verify, ch);
      var chosen := Send(verified.card, init);
      SendOpaque(verified.card, init, ch);
      PlainReceived(chosen.card, ch, cipher);
      SendCounted(Decrypting(d, ch, kid, cipher, pin).card, Close(ch));
      hide Send, MIASs.VerifyCommand, MIASs.InitCommand;
    }

    /** The point at which the listing is over is no free choice: what the card has received in the end determines it. */
    static lemma ListingEndIsDetermined(s: Card, d: Card, e: Card, ch: byte, pin: seq<byte>, f: Card, listed: bool)
      requires OnceListed(s, d, ch, listed) && OnceListed(s, e, ch, listed) && GoesOn(d, ch, pin, f) && GoesOn(e, ch, pin, f)
      ensures d.received == e.received && (d.Losses() == e.Losses() ==> d.tick == e.tick)
    {
      hide Steady;
      var m, n, verify := |d.received|, |e.received|, MIASs.VerifyCommand(ch, pin);
      assert f.received[m] == verify && f.received[n] == verify;
      assert d.received == f.received[..m] && e.received == f.received[..n];
      assert forall k :: |s.received| <= k < m ==> f.received[k] == d.received[k];
      assert forall k :: |s.received| <= k < n ==> f.received[k] == e.received[k];
      assert m == n;
    }

    /**
     Signs a digest with the key of container 0. `d` is the card once the key is known and `n` where the
     signature ends; see `ListingEndIsDetermined` and `EndIsUnique`.
     */
    method TobSigningSign(algorithm: byte, hash: seq<byte>, signature: array<byte>, pin: seq<byte>)
      returns (ret: int, signatureLen: int, ghost d: Card, ghost n: nat)
      requires Idle() && Writable(signature) && |pin| <= 256
      requires SaneIndex(FilesOf(Card(), MIASs.AID)) && AnswersEnd(Card(), signature.Length) && HashFits(algorithm, hash)
      modifies Objects(), signature
      ensures mias.applet.seiface == old(mias.applet.seiface) && AfterMias(old(Card()), old(mias.applet.View()))
      ensures var fs := FilesOf(old(Card()), MIASs.AID);
              d.Losses() == old(Card()).Losses() && old(mias.Indexed(fs)) ==>
                mias.Indexed(fs) && (Selected(old(Card()), old(mias.applet.View())).ok ==> mias.Listed() == CurrentIndex(fs))
      ensures var s, ch, k := Selected(old(Card()), old(mias.applet.View())), mias.applet.channel, Lookup(mias.Listed(), 0);
              if !s.ok then ret == ERR_BAD_KEY_NAME && Card() == s.card
              else
                && OnceListed(s.card, d, ch, old(mias.keypairsNum) != -1)
                && if k.None? then ret == ERR_BAD_KEY_NAME && Card() == Send(d, Close(ch)).card
                   else
                     && ret == Signing(d, ch, algorithm, k.value.kid, hash, pin, n).ret
                     && Card() == Send(Signing(d, ch, algorithm, k.value.kid, hash, pin, n).card, Close(ch)).card
                     && SigningEnds(d, ch, algorithm, k.value.kid, hash, pin, n)
                     && (ret == 0 ==>
                           DeliversSignature(DigestSent(d, ch, algorithm, k.value.kid, hash, pin).value.card, ch, n, signature, signatureLen))
    {
      hide Steady, Undisturbed, Selected, Send, SaneIndex, Index, AnswersEnd, Lookup, Signing, SigningEnds, DigestSent, DeliversSignature,
           OneSession, Counted;
      ghost var c, v := Card(), mias.applet.View();
      ret, signatureLen, d, n := ERR_BAD_KEY_NAME, 0, c, 0;
      var selected, s := SelectMias(c);
      CountedLosses(c, s);
      if selected {
        ret, signatureLen, d, n := SignInSession(algorithm, hash, signature, pin, c, s);
        SelectedRecord(c, v);
      }
      DeselectMias(c, v, s);
    }

    /** What deselecting a selected applet does to the card. */
    lemma SelectedRecord(c: Card, v: View)
      ensures forall d: Card, w: View :: w.selected ==> Deselected(d, w).card == Send(d, Close(w.channel)).card
    {
      hide Send;
    }

    method SignInSession(algorithm: byte, hash: seq<byte>, signature: array<byte>, pin: seq<byte>, ghost c: Card, ghost s: Card)
      returns (ret: int, signatureLen: int, ghost d: Card, ghost n: nat)
      requires InMias(c, s) && mias.applet.Card() == s && Counted(c, s) && Writable(signature) && |pin| <= 256
      requires SaneIndex(s.FilesOn(mias.applet.channel)) && AnswersEnd(c, signature.Length) && HashFits(algorithm, hash)
      modifies mias.applet.Device(), mias.keypairs, mias`keypairsNum, mias`signAlgo, signature
      ensures InMias(c, s)
      ensures var fs := s.FilesOn(mias.applet.channel);
              d.Losses() == s.Losses() && old(mias.Indexed(fs)) ==> mias.Indexed(fs) && mias.Listed() == CurrentIndex(fs)
      ensures OnceListed(s, d, mias.applet.channel, old(mias.keypairsNum) != -1)
      ensures var ch, k := mias.applet.channel, Lookup(mias.Listed(), 0);
              if k.None? then ret == ERR_BAD_KEY_NAME && mias.applet.Card() == d
              else
                && Performed(mias.applet.Card(), ret) == Signing(d, ch, algorithm, k.value.kid, hash, pin, n)
                && SigningEnds(d, ch, algorithm, k.value.kid, hash, pin, n)
                && (ret == 0 ==>
                      DigestSent(d, ch, algorithm, k.value.kid, hash, pin).Some?
                      && DeliversSignature(DigestSent(d, ch, algorithm, k.value.kid, hash, pin).value.card, ch, n, signature, signatureLen))
      ensures s.Losses() <= d.Losses()
    {
      hide Steady, Undisturbed, Send, SaneIndex, Index, AnswersEnd, Lookup, ClosesSucceed, Signing, SigningEnds, DigestSent, DeliversSignature;
      var found, keypair := mias.GetKeyPairByContainerId(0, s);
      ret, signatureLen, d, n := ERR_BAD_KEY_NAME, 0, mias.applet.Card(), 0;
      if found {
        ret, signatureLen, n := SignWith(keypair.kid, algorithm, hash, signature, pin, c, s);
      }
    }

    method SignWith(kid: byte, algorithm: byte, hash: seq<byte>, signature: array<byte>, pin: seq<byte>, ghost c: Card, ghost s: Card)
      returns (ret: int, signatureLen: int, ghost n: nat)
      requires InMias(c, s) && Counted(c, s) && Writable(signature) && |pin| <= 256 && AnswersEnd(c, signature.Length) && HashFits(algorithm, hash)
      modifies mias.applet.Device(), mias`signAlgo, signature
      ensures InMias(c, s)
      ensures var d, ch := old(mias.applet.Card()), mias.applet.channel;
              && Performed(mias.applet.Card(), ret) == Signing(d, ch, algorithm, kid, hash, pin, n)
              && SigningEnds(d, ch, algorithm, kid, hash, pin, n)
              && (ret == 0 ==>
                    DigestSent(d, ch, algorithm, kid, hash, pin).Some?
                    && DeliversSignature(DigestSent(d, ch, algorithm, kid, hash, pin).value.card, ch, n, signature, signatureLen))
    {
      hide Steady, Undisturbed, Send, AnswersEnd, ClosesSucceed, Pso.AllData, Pso.Collected, Pso.Ends, Pso.Completes;
      n, ret, signatureLen := 0, ERR_EF_VERIFY_PIN, 0;
      var ok := mias.VerifyPin(pin, s);
      if ok {
        ret := ERR_BAD_KEY_NAME;
        ok := mias.SignInit(algorithm, kid, s);
        if ok {
          n := SignatureEnd(algorithm, hash, signature.Length, c, s);
          var len;
          ok, len := mias.SignFinal(hash, signature, n, s);
          if ok {
            ret, signatureLen := 0, len;
          }
        }
      }
    }

    /** Where the signature will end when the digest is sent now. */
    lemma SignatureEnd(algorithm: byte, hash: seq<byte>, size: nat, c: Card, s: Card) returns (n: nat)
      requires InMias(c, s) && Counted(c, s) && AnswersEnd(c, size) && HashFits(algorithm, hash)
      ensures var l := MIASs.MIAS.DigestLength(algorithm / 16 * 16);
              l.Some? ==>
                Finishes(Send(mias.applet.Card(), MIASs.DigestCommand(mias.applet.channel, hash[..l.value])).card, mias.applet.channel, n, size)
    {
      hide Finishes, AnswersEnd;
      n := 0;
      var l, ch, d := MIASs.MIAS.DigestLength(algorithm / 16 * 16), mias.applet.channel, mias.applet.Card();
      if l.Some? {
        RoutedClass(0x00, ch);
        var apdu := MIASs.DigestCommand(ch, hash[..l.value]);
        SendOpaque(d, apdu, ch);
        SendCounted(d, apdu);
        hide Send;
        assert Counted(s, d);
        CountedMore(c, s, d);
        CountedMore(c, d, Send(d, apdu).card);
        n := AnswerCount(c, Send(d, apdu).card, ch, size);
      }
    }

    /** Deciphering with the key `kid` on the card `d`: PIN check, choice of algorithm and key, and the chained cipher text. */
    static ghost function Decrypting(d: Card, ch: byte, kid: byte, cipher: seq<byte>, pin: seq<byte>): Performed {
      var verified := Send(d, MIASs.VerifyCommand(ch, pin));
      if !verified.Succeeded() then Performed(verified.card, ERR_EF_VERIFY_PIN)
      else
        var chosen := Send(verified.card, MIASs.InitCommand(ch, 0xB8, 0x1A, kid));
        if !chosen.Succeeded() then Performed(chosen.card, ERR_BAD_KEY_NAME)
        else
          var p := Pso.Decipher(chosen.card, ch, cipher);
          Performed(p.card, if p.plain.Some? then 0 else ERR_BAD_KEY_NAME)
    }

    /** The plain text is what the card answers to the chained cipher text. */
    static ghost predicate DeliversPlain(d: Card, ch: byte, kid: byte, cipher: seq<byte>, pin: seq<byte>, plain: array<byte>, size: int)
      reads plain
    {
      var chosen := Send(Send(d, MIASs.VerifyCommand(ch, pin)).card, MIASs.InitCommand(ch, 0xB8, 0x1A, kid)).card;
      0 <= size <= plain.Length && Pso.Decipher(chosen, ch, cipher).plain == Some(plain[..size])
    }

    /** Deciphers with the key of container 0; `d` is the card once the key is known. */
    method TobSigningDecrypt(cipher: seq<byte>, plain: array<byte>, pin: seq<byte>) returns (ret: int, plainLen: int, ghost d: Card)
      requires Idle() && Writable(plain) && |pin| <= 256 && |cipher| <= 511 && 256 <= plain.Length
      requires SaneIndex(FilesOf(Card(), MIASs.AID))
      modifies Objects(), plain
      ensures mias.applet.seiface == old(mias.applet.seiface) && AfterMias(old(Card()), old(mias.applet.View()))
      ensures var fs := FilesOf(old(Card()), MIASs.AID);
              d.Losses() == old(Card()).Losses() && old(mias.Indexed(fs)) ==>
                mias.Indexed(fs) && (Selected(old(Card()), old(mias.applet.View())).ok ==> mias.Listed() == CurrentIndex(fs))
      ensures var s, ch, k := Selected(old(Card()), old(mias.applet.View())), mias.applet.channel, Lookup(mias.Listed(), 0);
              if !s.ok then ret == ERR_BAD_KEY_NAME && Card() == s.card
              else
                && OnceListed(s.card, d, ch, old(mias.keypairsNum) != -1)
                && if k.None? then ret == ERR_BAD_KEY_NAME && Card() == Send(d, Close(ch)).card
                   else
                     && ret == Decrypting(d, ch, k.value.kid, cipher, pin).ret
                     && Card() == Send(Decrypting(d, ch, k.value.kid, cipher, pin).card, Close(ch)).card
                     && (ret == 0 ==> DeliversPlain(d, ch, k.value.kid, cipher, pin, plain, plainLen))
    {
      hide Steady, Undisturbed, Selected, Send, SaneIndex, Index, Lookup, Decrypting, DeliversPlain, OneSession, Counted;
      ghost var c, v := Card(), mias.applet.View();
      ret, plainLen, d := ERR_BAD_KEY_NAME, 0, c;
      var selected, s := SelectMias(c);
      CountedLosses(c, s);
      if selected {
        ret, plainLen, d := DecryptInSession(cipher, plain, pin, c, s);
        SelectedRecord(c, v);
      }
      DeselectMias(c, v, s);
    }

    method DecryptInSession(cipher: seq<byte>, plain: array<byte>, pin: seq<byte>, ghost c: Card, ghost s: Card)
      returns (ret: int, plainLen: int, ghost d: Card)
      requires InMias(c, s) && mias.applet.Card() == s && Writable(plain) && |pin| <= 256 && |cipher| <= 511 && 256 <= plain.Length
      requires SaneIndex(s.FilesOn(mias.applet.channel))
      modifies mias.applet.Device(), mias.keypairs, mias`keypairsNum, plain
      ensures InMias(c, s)
      ensures var fs := s.FilesOn(mias.applet.channel);
              d.Losses() == s.Losses() && old(mias.Indexed(fs)) ==> mias.Indexed(fs) && mias.Listed() == CurrentIndex(fs)
      ensures OnceListed(s, d, mias.applet.channel, old(mias.keypairsNum) != -1)
      ensures var ch, k := mias.applet.channel, Lookup(mias.Listed(), 0);
              if k.None? then ret == ERR_BAD_KEY_NAME && mias.applet.Card() == d
              else
                && Performed(mias.applet.Card(), ret) == Decrypting(d, ch, k.value.kid, cipher, pin)
                && (ret == 0 ==> DeliversPlain(d, ch, k.value.kid, cipher, pin, plain, plainLen))
      ensures s.Losses() <= d.Losses()
    {
      hide Steady, Undisturbed, Send, SaneIndex, Index, Lookup, ClosesSucceed, Pso.Decipher;
      var found, keypair := mias.GetKeyPairByContainerId(0, s);
      ret, plainLen, d := ERR_BAD_KEY_NAME, 0, mias.applet.Card();
      if found {
        ret, plainLen := DecryptWith(keypair.kid, cipher, plain, pin, c, s);
      }
    }

    method DecryptWith(kid: byte, cipher: seq<byte>, plain: array<byte>, pin: seq<byte>, ghost c: Card, ghost s: Card)
      returns (ret: int, plainLen: int)
      requires InMias(c, s) && Writable(plain) && |pin| <= 256 && |cipher| <= 511 && 256 <= plain.Length
      modifies mias.applet.Device(), plain
      ensures InMias(c, s)
      ensures var d, ch := old(mias.applet.Card()), mias.applet.channel;
              && Performed(mias.applet.Card(), ret) == Decrypting(d, ch, kid, cipher, pin)
              && (ret == 0 ==> DeliversPlain(d, ch, kid, cipher, pin, plain, plainLen))
    {
      hide Steady, Undisturbed, Send, ClosesSucceed, Pso.Decipher;
      ret, plainLen := ERR_EF_VERIFY_PIN, 0;
      var ok := mias.VerifyPin(pin, s);
      if ok {
        ret := ERR_BAD_KEY_NAME;
        ok := mias.DecryptInit(0x1A, kid, s);
        if ok {
          var len;
          ok, len := mias.PsoDecipher(cipher, plain, s);
          if ok {
            ret, plainLen := 0, len;
          }
        }
      }
    }

    /** The length in bytes of the signing key's modulus. */
    method TobSigningLen() returns (ret: int)
      requires Idle() && SaneIndex(FilesOf(Card(), MIASs.AID))
      modifies Objects()
      ensures mias.applet.seiface == old(mias.applet.seiface) && AfterMias(old(Card()), old(mias.applet.View()))
      ensures var fs := FilesOf(old(Card()), MIASs.AID);
              Card().Losses() == old(Card()).Losses() && old(mias.Indexed(fs)) ==>
                mias.Indexed(fs) && (Selected(old(Card()), old(mias.applet.View())).ok ==> mias.Listed() == CurrentIndex(fs))
      ensures var k := Lookup(mias.Listed(), 0);
              ret == if Selected(old(Card()), old(mias.applet.View())).ok && k.Some? then k.value.sizeInBits / 8 else ERR_BAD_KEY_NAME
    {
      hide Steady, Undisturbed, Selected, Send, SaneIndex, Index, Lookup, OneSession;
      ghost var c, v := Card(), mias.applet.View();
      ret := ERR_BAD_KEY_NAME;
      var selected, s := SelectMias(c);
      if selected {
        var found, keypair := mias.GetKeyPairByContainerId(0, s);
        if found {
          ret := keypair.sizeInBits / 8;
        }
      }
      DeselectMias(c, v, s);
    }
  }
}
