/**
 How a caller obtains keys and certificates: ask for the size with null buffers, allocate exactly as
 much, and extract. That the calls verify means that the queried sizes are large enough.
 */
module Extraction {
  import opened Bytes
  import opened Cards
  import opened Channels
  import opened KeyIndex
  import opened Sdk
  import MIASs
  import P11Objects
  import Fcp
  import Matcher
  import Pem

  // ---- Cards that treat all calls alike ----

  /** Reading the object comes to `o` from now on, whenever it is tried and its session's own commands arrive. */
  ghost predicate Alike(c: Card, v: View, wanted: seq<byte>, pin: seq<byte>, o: int)
    requires P11Objects.SaneFiles(FilesOf(c, MIASs.AID), wanted)
  {
    forall t: nat, r: Conversation, w: View :: c.tick <= t && c.received <= r && w.aid == v.aid && !w.selected ==>
      SDK.Arrives(c.(tick := t, received := r), w, pin) ==>
      SDK.P11Outcome(c.(tick := t, received := r), w, wanted, pin) == o
  }

  /** The card at a later time, idle again. */
  ghost predicate Afterwards(c: Card, d: Card) {
    d.apps == c.apps && d.open == c.open && Counted(c, d)
  }

  lemma AlikeLater(c: Card, v: View, d: Card, w: View, wanted: seq<byte>, pin: seq<byte>, o: int)
    requires P11Objects.SaneFiles(FilesOf(c, MIASs.AID), wanted) && Alike(c, v, wanted, pin, o)
    requires Afterwards(c, d) && w.aid == v.aid && !w.selected && SDK.Arrives(d, w, pin)
    ensures SDK.P11Outcome(d, w, wanted, pin) == o
  {
    hide SDK.P11Outcome, SDK.Arrives;
    assert d == c.(tick := d.tick, received := d.received);
  }

  /** A session ends at a later time. */
  lemma SessionAfterwards(c: Card, v: View, d: Card)
    requires OneSession(c, v, d)
    ensures Afterwards(c, d) && Selected(c, v).card.Losses() <= d.Losses()
    ensures d.Losses() == c.Losses() ==> Selected(c, v).card.Losses() == c.Losses()
  {
    SelectCounted(c, v);
    SessionCounted(c, v, d);
    hide Selected, Steady;
  }

  /** What a call comes to that knows the object under two names, by what reading under each of them comes to. */
  function Fate(one: int, two: int): int {
    if one != ERR_MIAS_READ_OBJECT then one else two
  }

  /** A call at any later time `d` comes to just that if no command is lost in it. */
  lemma FateOfCall(c: Card, v: View, d: Card, w: View, f: int, again: Card, e: Card,
                   wanted: seq<byte>, legacy: seq<byte>, pin: seq<byte>, ret: int, one: int, two: int)
    requires P11Objects.SaneFiles(FilesOf(c, MIASs.AID), wanted) && P11Objects.SaneFiles(FilesOf(c, MIASs.AID), legacy)
    requires Alike(c, v, wanted, pin, one) && Alike(c, v, legacy, pin, two)
    requires Afterwards(c, d) && w.aid == v.aid && !w.selected && ClosesSucceed(d) && 0 < |v.aid| < 256
    requires SDK.TwoNames(d, w, f, again, e, wanted, legacy, pin, ret)
    ensures d.Losses() <= e.Losses()
    ensures e.Losses() == d.Losses() ==> ret == Fate(one, two) && f == one
    ensures e.Losses() == d.Losses() ==> e.Losses() == SDK.ReadFrom(d, f, again).Losses()
  {
    hide SDK.P11Outcome, SDK.Arrives, OneSession, Selected, Alike, P11Objects.SaneFiles, Steady;
    SessionAfterwards(d, w, again);
    if f == ERR_MIAS_READ_OBJECT {
      SelectIdle(d, w);
      SessionAfterwards(again, Selected(d, w).view.(selected := false), e);
      CountedMore(c, d, again);
    }
    if e.Losses() == d.Losses() {
      AlikeLater(c, v, d, w, wanted, pin, one);
      if f == ERR_MIAS_READ_OBJECT {
        AlikeLater(c, v, again, Selected(d, w).view.(selected := false), legacy, pin, two);
      }
    }
  }

  /** On a card that loses no more commands everything arrives. */
  lemma SteadyArrives(c: Card, v: View, pin: seq<byte>)
    requires Steady(c)
    ensures SDK.Arrives(c, v, pin)
  {
    SelectCounted(c, v);
    var s := Selected(c, v);
    SendCounted(s.card, MIASs.VerifyCommand(s.view.channel, pin));
    hide Selected, Send, Steady;
  }

  /** All objects of either name have one length. */
  ghost predicate OneLength(fs: Files, wanted: seq<byte>, legacy: seq<byte>)
    requires P11Objects.SaneFiles(fs, wanted) && P11Objects.SaneFiles(fs, legacy)
  {
    var sizes := P11Objects.Sizes(false, fs, wanted) + P11Objects.Sizes(false, fs, legacy);
    forall k, l :: k in sizes && l in sizes ==> k == l
  }

  /**
   A size reported at `c` is the one a buffer must hold at any later time `d`, if no command will be lost
   or there is but one length to report.
   */
  lemma SizeSuffices(c: Card, v: View, d: Card, w: View, wanted: seq<byte>, legacy: seq<byte>, pin: seq<byte>, one: int, size: int)
    requires P11Objects.SaneFiles(FilesOf(c, MIASs.AID), wanted) && P11Objects.SaneFiles(FilesOf(c, MIASs.AID), legacy)
    requires Alike(c, v, wanted, pin, one) && !v.selected
    requires Steady(c) || OneLength(FilesOf(c, MIASs.AID), wanted, legacy)
    requires Afterwards(c, d) && w.aid == v.aid && !w.selected
    requires size in SDK.ReadSizes(c, v, wanted, pin) + SDK.LegacySizes(c, v, wanted, legacy, pin)
    ensures forall k :: k in SDK.ReadSizes(d, w, wanted, pin) + SDK.LegacySizes(d, w, wanted, legacy, pin) ==> k == size
  {
    hide SDK.P11Outcome, Alike, P11Objects.SaneFiles, Steady, SDK.Arrives;
    var fs := FilesOf(c, MIASs.AID);
    if Steady(c) {
      assert Steady(d);
      Uncounted(c);
      SteadyArrives(c, v, pin);
      SteadyArrives(d, w, pin);
      AlikeLater(c, v, c, v, wanted, pin, one);
      AlikeLater(c, v, d, w, wanted, pin, one);
    } else {
      FewerSizes(c, v, wanted, legacy, pin);
      FewerSizes(d, w, wanted, legacy, pin);
      hide P11Objects.Sizes, SDK.ReadSizes, SDK.LegacySizes;
    }
  }

  lemma FewerSizes(c: Card, v: View, wanted: seq<byte>, legacy: seq<byte>, pin: seq<byte>)
    requires P11Objects.SaneFiles(FilesOf(c, MIASs.AID), wanted) && P11Objects.SaneFiles(FilesOf(c, MIASs.AID), legacy)
    ensures var fs := FilesOf(c, MIASs.AID);
            SDK.ReadSizes(c, v, wanted, pin) + SDK.LegacySizes(c, v, wanted, legacy, pin)
            <= P11Objects.Sizes(false, fs, wanted) + P11Objects.Sizes(false, fs, legacy)
  {
    P11Objects.SizesShrink(false, Steady(c), FilesOf(c, MIASs.AID), wanted);
    P11Objects.SizesShrink(false, true, FilesOf(c, MIASs.AID), wanted);
    P11Objects.SizesShrink(false, Steady(c), FilesOf(c, MIASs.AID), legacy);
    hide P11Objects.SaneFiles, P11Objects.Sizes, SDK.P11Outcome, Steady;
  }

  /** Selecting the applet comes out as `ok` from now on, whenever it is tried and no command is lost. */
  ghost predicate SelectsAlike(c: Card, v: View, ok: bool) {
    forall t: nat, r: Conversation, w: View :: c.tick <= t && c.received <= r && w.aid == v.aid && !w.selected ==>
      SelectionArrives(c.(tick := t, received := r), w) ==> Selected(c.(tick := t, received := r), w).ok == ok
  }

  ghost predicate SelectionArrives(c: Card, v: View) {
    Selected(c, v).card.Losses() == c.Losses()
  }

  /** A card that refuses nothing it receives, has the applet and a free channel, and accepts the PIN. */
  ghost predicate Obliging(c: Card, aid: seq<byte>, pin: seq<byte>) {
    && ClosesSucceed(c) && aid in c.apps
    && (forall t: nat :: c.tick <= t ==> !c.env(t).refuse && c.env(t).channel in {1, 2, 3} && c.env(t).channel !in c.open)
    && (forall t: nat, r: Conversation, ch: byte :: c.tick <= t && ch in {1, 2, 3} ==>
          Sw(c.env(t).answer(r + [MIASs.VerifyCommand(ch, pin)])) == OK)
  }

  lemma ObligingSelects(c: Card, v: View, pin: seq<byte>)
    requires Obliging(c, v.aid, pin) && !v.selected && 0 < |v.aid| < 256 && SelectionArrives(c, v)
    ensures var s := Selected(c, v);
            && s.ok && s.view.channel in {1, 2, 3} && s.view.channel in s.card.open
            && s.card.env == c.env && c.tick <= s.card.tick
  {
    SelectIdle(c, v);
    SendCounted(c, OPEN);
    var offered := Send(c, OPEN);
    if offered.answer.Some? {
      var w := Assigned(v, offered.answer.value);
      ObligingOpens(c, v, pin);
      var named := Send(offered.card, SelectByName(w.channel, w.aid));
      SendCounted(offered.card, SelectByName(w.channel, w.aid));
      SendCounted(named.card, Close(w.channel));
    }
    hide Send, Assigned, Obliging, Steady;
  }

  /** Once it has received the request for a channel, it opens one, and selects the applet there if that arrives. */
  lemma ObligingOpens(c: Card, v: View, pin: seq<byte>)
    requires Obliging(c, v.aid, pin) && !v.selected && 0 < |v.aid| < 256 && Send(c, OPEN).answer.Some?
    ensures var offered := Send(c, OPEN);
            && offered.Succeeded()
            && var w := Assigned(v, offered.answer.value);
               var named := Send(offered.card, SelectByName(w.channel, w.aid));
               && w.aid == v.aid && !w.selected && w.channel in {1, 2, 3}
               && (named.answer.Some? ==> Accepted(named.answer.value))
  {
    var ch := c.env(c.tick).channel;
    var offered := Send(c, OPEN);
    assert offered.answer.value == [ch, 0x90, 0x00];
    var apdu := SelectByName(ch, v.aid);
    RoutedClass(0x00, ch);
    assert Body(apdu) == v.aid;
    assert !c.env(c.tick + 1).refuse;
    hide Steady;
  }

  /** On such a card reading fails exactly when the object is missing, whenever it is tried and nothing is lost. */
  lemma ObligingOutcome(c: Card, v: View, wanted: seq<byte>, pin: seq<byte>)
    requires Obliging(c, v.aid, pin) && !v.selected && 0 < |v.aid| < 256 && SDK.Arrives(c, v, pin)
    requires P11Objects.SaneFiles(FilesOf(c, MIASs.AID), wanted)
    ensures SDK.P11Outcome(c, v, wanted, pin) ==
            if P11Objects.Object(FilesOf(c, MIASs.AID), wanted).Some? then 0 else ERR_MIAS_READ_OBJECT
  {
    ObligingSelects(c, v, pin);
    var s := Selected(c, v);
    var apdu := MIASs.VerifyCommand(s.view.channel, pin);
    RoutedClass(0x00, s.view.channel);
    SendOpaque(s.card, apdu, s.view.channel);
    assert Sw(s.card.Opaque(apdu)) == OK;
    hide Selected, Send, P11Objects.Object;
  }

  lemma ObligingIsAlike(c: Card, v: View, wanted: seq<byte>, pin: seq<byte>)
    requires Obliging(c, v.aid, pin) && !v.selected && 0 < |v.aid| < 256
    requires P11Objects.SaneFiles(FilesOf(c, MIASs.AID), wanted)
    ensures Alike(c, v, wanted, pin, if P11Objects.Object(FilesOf(c, MIASs.AID), wanted).Some? then 0 else ERR_MIAS_READ_OBJECT)
    ensures SelectsAlike(c, v, true)
  {
    hide SDK.P11Outcome, SDK.Arrives, SelectionArrives, Selected, P11Objects.SaneFiles, P11Objects.Object;
    forall t: nat, r: Conversation, w: View | c.tick <= t && c.received <= r && w.aid == v.aid && !w.selected
      ensures SelectionArrives(c.(tick := t, received := r), w) ==> Selected(c.(tick := t, received := r), w).ok
      ensures SDK.Arrives(c.(tick := t, received := r), w, pin) ==>
              SDK.P11Outcome(c.(tick := t, received := r), w, wanted, pin)
              == if P11Objects.Object(FilesOf(c, MIASs.AID), wanted).Some? then 0 else ERR_MIAS_READ_OBJECT
    {
      var d := c.(tick := t, received := r);
      ObligingLater(c, d, v.aid, pin);
      if SDK.Arrives(d, w, pin) {
        ObligingOutcome(d, w, wanted, pin);
      }
      if SelectionArrives(d, w) {
        ObligingSelects(d, w, pin);
      }
    }
  }

  lemma ObligingLater(c: Card, d: Card, aid: seq<byte>, pin: seq<byte>)
    requires Obliging(c, aid, pin) && d.apps == c.apps && d.open == c.open && d.env == c.env && c.tick <= d.tick
    ensures Obliging(d, aid, pin)
  {
  }

  // ---- Query, allocate, extract ----

  /**
   The available key. Unless a command is lost during the two calls, both succeed or fail as the card's
   treatment of the names says, and on success with the same sizes.
   */
  method AvailableKey(sdk: SDK, pin: seq<byte>, ghost one: int, ghost two: int)
    returns (queried: int, pemQuery: int, derQuery: int, ret: int, pem: array<byte>, pemSize: int, der: array<byte>, derSize: int)
    requires sdk.Idle() && |pin| <= 256
    requires var fs := FilesOf(sdk.Card(), MIASs.AID);
             && P11Objects.SaneFiles(fs, PRIV_AVAILABLE) && P11Objects.SaneFiles(fs, PRIV_TYPE_A)
             && (Steady(sdk.Card()) || OneLength(fs, PRIV_AVAILABLE, PRIV_TYPE_A))
    requires Alike(sdk.Card(), sdk.mias.applet.View(), PRIV_AVAILABLE, pin, one)
    requires Alike(sdk.Card(), sdk.mias.applet.View(), PRIV_TYPE_A, pin, two)
    modifies sdk.Objects()
    ensures sdk.Restored(old(sdk.Card()))
    ensures sdk.Card().Losses() == old(sdk.Card()).Losses() ==>
      && ret == queried == Fate(one, two)
      && (queried == 0 ==>
            && derSize == derQuery == der.Length && pemSize == pemQuery == pem.Length
            && pem[..] == Pem.PemText(Pem.RSA_PRIVATE_KEY, der[..])
            && var o := P11Objects.Object(FilesOf(old(sdk.Card()), MIASs.AID), SDK.NameRead(one, PRIV_AVAILABLE, PRIV_TYPE_A));
               o.Some? && der[..] == o.value + [0])
  {
    hide P11Objects.SaneFiles, P11Objects.Object, P11Objects.Sizes, Pem.PemText, Pem.DerToPemLen, Selected, Send, Steady, Alike, OneLength,
         SDK.P11Outcome, SDK.TwoNames, SDK.ReadFrom, SDK.ReadSizes, SDK.LegacySizes, Fate, Counted, ClosesSucceed,
         MIASs.MIAS.Valid, MIASs.MIAS.NamesCertificates;
    ghost var c, v := sdk.Card(), sdk.mias.applet.View();
    ret, pemSize, derSize := -1, 0, 0;
    pem, der := new byte[0], new byte[0];
    ghost var f, again;
    Uncounted(c);
    queried, pemQuery, derQuery, f, again := sdk.TobExtractAvailablePrivateKey(null, true, null, pin);
    FateOfCall(c, v, c, v, f, again, sdk.Card(), PRIV_AVAILABLE, PRIV_TYPE_A, pin, queried, one, two);
    ret := queried;
    if queried == 0 {
      ghost var d, w := sdk.Card(), sdk.mias.applet.View();
      SizeSuffices(c, v, d, w, PRIV_AVAILABLE, PRIV_TYPE_A, pin, one, derQuery - 1);
      pem, der := new byte[pemQuery], new byte[derQuery];
      ghost var g;
      ret, pemSize, derSize, g, again := sdk.TobExtractAvailablePrivateKey(pem, true, der, pin);
      FateOfCall(c, v, d, w, g, again, sdk.Card(), PRIV_AVAILABLE, PRIV_TYPE_A, pin, ret, one, two);
      CountedMore(c, d, sdk.Card());
      assert der[..der.Length] == der[..] && pem[..pem.Length] == pem[..];
    }
  }

  /**
   The available certificate. Unless a command is lost during the two calls, the queried size is that of
   the stored chain, and delivered is the chain's first certificate.
   */
  method AvailableCertificate(sdk: SDK, pin: seq<byte>, ghost one: int, ghost two: int)
    returns (queried: int, query: int, ret: int, cert: array<byte>, size: int)
    requires sdk.Idle() && |pin| <= 256
    requires var fs := FilesOf(sdk.Card(), MIASs.AID);
             && P11Objects.SaneFiles(fs, CERT_AVAILABLE) && P11Objects.SaneFiles(fs, CERT_TYPE_A)
             && (Steady(sdk.Card()) || OneLength(fs, CERT_AVAILABLE, CERT_TYPE_A))
    requires Alike(sdk.Card(), sdk.mias.applet.View(), CERT_AVAILABLE, pin, one)
    requires Alike(sdk.Card(), sdk.mias.applet.View(), CERT_TYPE_A, pin, two)
    modifies sdk.Objects()
    ensures sdk.Restored(old(sdk.Card()))
    ensures sdk.Card().Losses() == old(sdk.Card()).Losses() ==>
      && ret == queried == Fate(one, two)
      && (queried == 0 ==>
            && var o := P11Objects.Object(FilesOf(old(sdk.Card()), MIASs.AID), SDK.NameRead(one, CERT_AVAILABLE, CERT_TYPE_A));
               && o.Some? && query == cert.Length == |o.value|
               && size == Matcher.Cropped(Pem.FOOTER, o.value) && size <= query && cert[..size] == o.value[..size])
  {
    hide P11Objects.SaneFiles, P11Objects.Object, P11Objects.Sizes, Selected, Send, Steady, Alike, OneLength,
         SDK.P11Outcome, SDK.TwoNames, SDK.ReadFrom, SDK.ReadSizes, SDK.LegacySizes, Fate, Counted, ClosesSucceed,
         MIASs.MIAS.Valid, MIASs.MIAS.NamesCertificates;
    ghost var c, v := sdk.Card(), sdk.mias.applet.View();
    ret, size := -1, 0;
    cert := new byte[0];
    ghost var f, again;
    Uncounted(c);
    queried, query, f, again := sdk.TobExtractAvailableCertificate(null, pin);
    FateOfCall(c, v, c, v, f, again, sdk.Card(), CERT_AVAILABLE, CERT_TYPE_A, pin, queried, one, two);
    ret := queried;
    if queried == 0 {
      ghost var d, w := sdk.Card(), sdk.mias.applet.View();
      SizeSuffices(c, v, d, w, CERT_AVAILABLE, CERT_TYPE_A, pin, one, query);
      cert := new byte[query];
      ghost var g;
      ret, size, g, again := sdk.TobExtractAvailableCertificate(cert, pin);
      FateOfCall(c, v, d, w, g, again, sdk.Card(), CERT_AVAILABLE, CERT_TYPE_A, pin, ret, one, two);
      CountedMore(c, d, sdk.Card());
    }
  }

  /** The signing certificate's file, if the card's key index names one. */
  ghost function SigningFile(fs: Files): Option<EF>
    requires SaneIndex(fs)
  {
    CertificateFile(fs, CurrentIndex(fs), 0)
  }

  /** The size the signing certificate's file states, 0 without a file. */
  ghost function SigningSize(fs: Files): nat
    requires SaneIndex(fs)
  {
    var f := SigningFile(fs);
    if f.Some? && Walkable(f.value) then SizeRead(f.value, 0) else 0
  }

  /** All certificate files have one size. */
  ghost predicate OneSize(fs: Files)
    requires SaneIndex(fs) && SaneCertificates(fs)
  {
    forall k, l :: k in CertificateSizes(false, fs, 0) && l in CertificateSizes(false, fs, 0) ==> k == l
  }

  /** The signing certificate's file is in the buffer; it is refused exactly when it is marked as compressed. */
  ghost predicate DeliveredFile(fs: Files, size: int, der: array<byte>, ret: int)
    requires SaneIndex(fs)
    reads der
  {
    && 2 <= der.Length && ret == (if der[..2] == [0x01, 0x00] then ERR_BAD_KEY_NAME else 0)
    && SigningFile(fs).Some? && 0 <= size <= |SigningFile(fs).value.content| && size <= der.Length
    && der[..size] == SigningFile(fs).value.content[..size]
  }

  /**
   The signing certificate. Unless a command is lost during the two calls, the query succeeds exactly
   when the applet can be selected and the index names a file that is not empty; delivery then fails
   only for one marked as compressed. Two bytes are always inspected, so two are allocated at least.
   */
  method SigningCertificate(sdk: SDK, pin: Option<seq<byte>>, ghost selects: bool)
    returns (queried: int, pemQuery: int, derQuery: int, ret: int, pem: array<byte>, pemSize: int, der: array<byte>, derSize: int)
    requires sdk.Idle() && sdk.mias.Indexed(FilesOf(sdk.Card(), MIASs.AID))
    requires var fs := FilesOf(sdk.Card(), MIASs.AID); SaneCertificates(fs) && (Steady(sdk.Card()) || OneSize(fs))
    requires SelectsAlike(sdk.Card(), sdk.mias.applet.View(), selects)
    modifies sdk.Objects()
    ensures sdk.Restored(old(sdk.Card()))
    ensures sdk.Card().Losses() == old(sdk.Card()).Losses() ==>
      var fs := FilesOf(old(sdk.Card()), MIASs.AID);
      && queried == (if selects && 0 < SigningSize(fs) then 0 else ERR_BAD_KEY_NAME)
      && (queried != 0 ==> ret == queried)
      && (queried == 0 ==>
            && derQuery == SigningSize(fs) && der.Length == (if derQuery < 2 then 2 else derQuery) && pemQuery == pem.Length
            && DeliveredFile(fs, derQuery, der, ret)
            && (ret == 0 ==> derSize == derQuery && pemSize == pemQuery && pem[..] == Pem.PemText(Pem.CERTIFICATE, der[..derQuery])))
  {
    hide SaneIndex, SaneCertificates, CertificateSizes, SigningFile, SigningSize, SDK.CertificateOutcome, Selected, Send, Steady, OneSession,
         OneSize, SelectsAlike, DeliveredFile, MIASs.MIAS.Valid, Pem.PemText, Pem.DerToPemLen, Counted, ClosesSucceed, CurrentIndex, CertificateFile;
    ghost var c, v, fs := sdk.Card(), sdk.mias.applet.View(), FilesOf(sdk.Card(), MIASs.AID);
    pem, der := new byte[0], new byte[0];
    pemSize, derSize := 0, 0;
    queried, pemQuery, derQuery := sdk.TobExtractSigningCertificate(null, true, null, pin);
    ret := queried;
    ghost var d, w := sdk.Card(), sdk.mias.applet.View();
    SelectsInSession(c, v, c, v, d, selects);
    QueryOutcome(fs, queried, derQuery);
    if queried == 0 {
      FileSuffices(c, d, fs, sdk.mias.Indexed(fs), derQuery);
      ret, pem, pemSize, der, derSize := DeliverSigning(sdk, pin, pemQuery, derQuery);
      SelectsInSession(c, v, d, w, sdk.Card(), selects);
      DeliveryOutcome(fs, derQuery, der, ret, derSize);
      CountedMore(c, d, sdk.Card());
    }
  }

  /** The second call, with buffers of the queried sizes. */
  method DeliverSigning(sdk: SDK, pin: Option<seq<byte>>, pemQuery: int, derQuery: int)
    returns (ret: int, pem: array<byte>, pemSize: int, der: array<byte>, derSize: int)
    requires sdk.Idle() && 0 <= derQuery && pemQuery == Pem.DerToPemLen(derQuery, Pem.CERTIFICATE)
    requires var fs := FilesOf(sdk.Card(), MIASs.AID);
             SaneIndex(fs) && SaneCertificates(fs) && CertificateSizes(sdk.Certain(sdk.Card(), fs), fs, 0) <= {derQuery}
    modifies sdk.Objects()
    ensures sdk.AfterMias(old(sdk.Card()), old(sdk.mias.applet.View()))
    ensures fresh(pem) && fresh(der) && pem.Length == pemQuery && der.Length == (if derQuery < 2 then 2 else derQuery)
    ensures ret == 0 ==> derSize == derQuery && pemSize == pemQuery && pem[..] == Pem.PemText(Pem.CERTIFICATE, der[..derQuery])
    ensures var fs := FilesOf(old(sdk.Card()), MIASs.AID);
            sdk.Card().Losses() == old(sdk.Card()).Losses() && old(sdk.mias.Indexed(fs)) ==>
              if Selected(old(sdk.Card()), old(sdk.mias.applet.View())).ok then SDK.CertificateOutcome(fs, 0, der, ret, derSize)
              else ret == ERR_BAD_KEY_NAME
  {
    hide SaneIndex, SaneCertificates, CertificateSizes, SDK.CertificateOutcome, Selected, Send, Steady, OneSession, MIASs.MIAS.Indexed,
         Pem.PemText, Pem.DerToPemLen, Counted, ClosesSucceed;
    pem, der := new byte[pemQuery], new byte[if derQuery < 2 then 2 else derQuery];
    ret, pemSize, derSize := sdk.TobExtractSigningCertificate(pem, true, der, pin);
    assert pem[..pem.Length] == pem[..];
  }

  /** A session at a later time selects the applet as all do, unless a command is lost in it. */
  lemma SelectsInSession(c: Card, v: View, d: Card, w: View, e: Card, selects: bool)
    requires SelectsAlike(c, v, selects) && (d == c || Afterwards(c, d)) && w.aid == v.aid && !w.selected && OneSession(d, w, e)
    ensures d.Losses() <= e.Losses()
    ensures e.Losses() == d.Losses() ==> Selected(d, w).ok == selects
  {
    SessionAfterwards(d, w, e);
    Uncounted(c);
    hide Selected, OneSession, Steady;
    assert d == c.(tick := d.tick, received := d.received);
    assert e.Losses() == d.Losses() ==> SelectionArrives(d, w);
  }

  lemma QueryOutcome(fs: Files, queried: int, query: int)
    requires SaneIndex(fs)
    ensures SDK.CertificateOutcome(fs, 0, null, queried, query) ==>
            && queried == (if 0 < SigningSize(fs) then 0 else ERR_BAD_KEY_NAME)
            && (queried == 0 ==> query == SigningSize(fs))
  {
    hide SaneIndex, CertificateFile, CurrentIndex;
  }

  /** A size reported at `c` is the one a buffer must hold at any later time `d`. */
  lemma FileSuffices(c: Card, d: Card, fs: Files, indexed: bool, query: int)
    requires SaneIndex(fs) && SaneCertificates(fs) && (Steady(c) || OneSize(fs)) && Counted(c, d)
    requires d.Losses() == c.Losses() ==> indexed
    requires query in CertificateSizes(Steady(c), fs, 0)
    ensures CertificateSizes(Steady(d) && indexed, fs, 0) <= {query}
  {
    CertificateSizesShrink(false, Steady(d) && indexed, fs, 0);
    CertificateSizesShrink(false, Steady(c), fs, 0);
    hide SaneIndex, SaneCertificates, CertificateFile, CurrentIndex, Steady;
    if Steady(c) {
      assert Steady(d) && indexed;
    }
  }

  lemma DeliveryOutcome(fs: Files, query: int, der: array<byte>, ret: int, size: int)
    requires SaneIndex(fs)
    ensures SDK.CertificateOutcome(fs, 0, der, ret, size) && 0 < query == SigningSize(fs) ==>
            DeliveredFile(fs, query, der, ret) && (ret == 0 ==> size == query)
  {
    hide SaneIndex, CertificateFile, CurrentIndex;
  }

  // ---- Cards that do not ----

  /**
   A query begun at `c` and a delivery begun at `d`, both successful and without a lost command. Their
   sizes are those of the names they came to read. With both names stored these agree exactly when the
   applet could be selected at the beginning of both calls or of neither, unless the objects happen to
   be of one size.
   */
  lemma QueriesAgreeExactly(c: Card, v: View, f: int, a: Card, e: Card, d: Card, w: View, g: int, b: Card, h: Card,
                            wanted: seq<byte>, legacy: seq<byte>, pin: seq<byte>)
    requires P11Objects.SaneFiles(FilesOf(c, MIASs.AID), wanted) && P11Objects.SaneFiles(FilesOf(c, MIASs.AID), legacy)
    requires d.apps == c.apps
    requires SDK.TwoNames(c, v, f, a, e, wanted, legacy, pin, 0) && SDK.TwoNames(d, w, g, b, h, wanted, legacy, pin, 0)
    requires e.Losses() == c.Losses() && h.Losses() == d.Losses()
    ensures var fs := FilesOf(c, MIASs.AID);
            var queried := P11Objects.Object(fs, SDK.NameRead(f, wanted, legacy));
            var delivered := P11Objects.Object(fs, SDK.NameRead(g, wanted, legacy));
            var one, two := P11Objects.Object(fs, wanted), P11Objects.Object(fs, legacy);
            && queried.Some? && delivered.Some?
            && (one.None? || two.None? ==> queried == delivered)
            && (one.Some? && two.Some? ==>
                  (|queried.value| == |delivered.value|
                   <==> Selected(c, v).ok == Selected(d, w).ok || |one.value| == |two.value|))
  {
    hide Selected, SDK.TwoNames, P11Objects.Object, P11Objects.SaneFiles;
    NameOfCall(c, v, f, a, e, wanted, legacy, pin);
    NameOfCall(d, w, g, b, h, wanted, legacy, pin);
  }

  /** A successful call without a lost command has read a stored object: the older one only if the other is missing or the applet could not be selected. */
  lemma NameOfCall(c: Card, v: View, f: int, a: Card, e: Card, wanted: seq<byte>, legacy: seq<byte>, pin: seq<byte>)
    requires P11Objects.SaneFiles(FilesOf(c, MIASs.AID), wanted) && P11Objects.SaneFiles(FilesOf(c, MIASs.AID), legacy)
    requires SDK.TwoNames(c, v, f, a, e, wanted, legacy, pin, 0) && e.Losses() == c.Losses()
    ensures var fs := FilesOf(c, MIASs.AID);
            && P11Objects.Object(fs, SDK.NameRead(f, wanted, legacy)).Some?
            && (f == ERR_MIAS_READ_OBJECT <==> !Selected(c, v).ok || P11Objects.Object(fs, wanted).None?)
  {
    SessionCounted(c, v, a);
    if f == ERR_MIAS_READ_OBJECT {
      SessionCounted(a, Selected(c, v).view.(selected := false), e);
    }
    hide Selected, Send, P11Objects.Object, P11Objects.SaneFiles, OneSession, SDK.Arrives, Steady;
  }
}
