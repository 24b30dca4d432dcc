/** Programs that use the SDK: creation, initialization, and any sequence of its public calls. */
module Service {
  import opened Bytes
  import opened Cards
  import opened KeyIndex
  import opened SEInterfaces
  import opened Applets
  import opened Sdk
  import Channels
  import MIASs
  import P11Objects
  import Pem
  import Pso

  datatype Call =
    | AvailableCertificate(cert: array?<byte>, pin: seq<byte>)
    | AvailableKey(pem: array?<byte>, wantPemSize: bool, der: array?<byte>, pin: seq<byte>)
    | SigningCertificate(pem: array?<byte>, wantPemSize: bool, der: array?<byte>, anyPin: Option<seq<byte>>)
    | Sign(algorithm: byte, hash: seq<byte>, signature: array<byte>, pin: seq<byte>)
    | Decrypt(cipher: seq<byte>, plain: array<byte>, pin: seq<byte>)
    | KeyLength

  function Given(b: array?<byte>): set<object> {
    if b == null then {} else {b}
  }

  /** The buffers a call may write. */
  function Buffers(call: Call): set<object> {
    match call
    case AvailableCertificate(cert, _) => Given(cert)
    case AvailableKey(pem, _, der, _) => Given(pem) + Given(der)
    case SigningCertificate(pem, _, der, _) => Given(pem) + Given(der)
    case Sign(_, _, signature, _) => {signature}
    case Decrypt(_, plain, _) => {plain}
    case KeyLength => {}
  }

  /** A buffer of `spare` bytes more than any object of either name, and of its PEM text. */
  ghost predicate Ample(fs: Files, wanted: seq<byte>, legacy: seq<byte>, target: array?<byte>, spare: nat)
    requires P11Objects.SaneFiles(fs, wanted) && P11Objects.SaneFiles(fs, legacy)
  {
    target != null ==>
      && spare <= target.Length
      && P11Objects.Fits(P11Objects.Sizes(false, fs, wanted) + P11Objects.Sizes(false, fs, legacy), target.Length - spare)
  }

  /** What the caller of each function must provide, on a card that may lose commands. */
  ghost predicate Permitted(c: Card, call: Call) {
    var fs := FilesOf(c, MIASs.AID);
    match call
    case AvailableCertificate(cert, pin) =>
      && |pin| <= 256 && P11Objects.SaneFiles(fs, CERT_AVAILABLE) && P11Objects.SaneFiles(fs, CERT_TYPE_A)
      && Ample(fs, CERT_AVAILABLE, CERT_TYPE_A, cert, 0)
    case AvailableKey(pem, _, der, pin) =>
      && |pin| <= 256 && P11Objects.SaneFiles(fs, PRIV_AVAILABLE) && P11Objects.SaneFiles(fs, PRIV_TYPE_A)
      && Ample(fs, PRIV_AVAILABLE, PRIV_TYPE_A, der, 1)
      && (der != null && pem != null ==>
            && der != pem
            && SDK.PemFits(P11Objects.Sizes(false, fs, PRIV_AVAILABLE) + P11Objects.Sizes(false, fs, PRIV_TYPE_A), 1, Pem.RSA_PRIVATE_KEY, pem.Length))
    case SigningCertificate(pem, _, der, _) =>
      && SDK.CertificateSpace(false, fs, 0, der)
      && (der != null && pem != null ==> der != pem && SDK.PemFits(CertificateSizes(false, fs, 0), 0, Pem.CERTIFICATE, pem.Length))
    case Sign(algorithm, hash, signature, pin) =>
      |pin| <= 256 && SaneIndex(fs) && SDK.AnswersEnd(c, signature.Length) && SDK.HashFits(algorithm, hash)
    case Decrypt(cipher, plain, pin) => |pin| <= 256 && |cipher| <= 511 && 256 <= plain.Length && SaneIndex(fs)
    case KeyLength => SaneIndex(fs)
  }

  lemma PermittedLater(c: Card, d: Card, call: Call)
    requires Permitted(c, call) && d.apps == c.apps && Counted(c, d)
    ensures Permitted(d, call)
  {
    hide P11Objects.SaneFiles, P11Objects.Sizes, SaneIndex, SaneCertificates, CertificateSizes, SDK.PemFits, Ample, SDK.CertificateSpace, Steady;
    if call.Sign? {
      EndsLater(c, d, call.signature.Length);
    }
    hide SDK.AnswersEnd;
  }

  lemma EndsLater(c: Card, d: Card, size: nat)
    requires SDK.AnswersEnd(c, size) && Counted(c, d)
    ensures SDK.AnswersEnd(d, size)
  {
    hide SDK.ComesToAnEnd, Steady;
    forall t: nat, r: Conversation, ch: byte | d.tick <= t && d.received <= r && ch in {1, 2, 3}
      ensures SDK.ComesToAnEnd(SDK.At(d, t, r, ch), ch, size)
    {
      assert SDK.ComesToAnEnd(SDK.At(c, t, r, ch), ch, size);
      SameEnd(SDK.At(c, t, r, ch), SDK.At(d, t, r, ch), ch, size);
    }
  }

  lemma SameEnd(c: Card, d: Card, ch: byte, size: nat)
    requires SDK.ComesToAnEnd(c, ch, size) && ch in c.open && ch in d.open && ch in {1, 2, 3}
    requires c.env == d.env && c.tick == d.tick && c.received == d.received
    ensures SDK.ComesToAnEnd(d, ch, size)
  {
    var n: nat :| SDK.Finishes(c, ch, n, size);
    Pso.SameEnds(c, d, ch, n);
    Pso.SameData(c, d, ch, n + 1);
    assert SDK.Finishes(d, ch, n, size);
  }

  /** Ample buffers hold what a call comes to read. */
  lemma AmpleHolds(c: Card, v: Channels.View, wanted: seq<byte>, legacy: seq<byte>, pin: seq<byte>, target: array?<byte>, spare: nat)
    requires P11Objects.SaneFiles(FilesOf(c, MIASs.AID), wanted) && P11Objects.SaneFiles(FilesOf(c, MIASs.AID), legacy)
    ensures var fs := FilesOf(c, MIASs.AID);
            SDK.ReadSizes(c, v, wanted, pin) + SDK.LegacySizes(c, v, wanted, legacy, pin)
            <= P11Objects.Sizes(false, fs, wanted) + P11Objects.Sizes(false, fs, legacy)
    ensures Ample(FilesOf(c, MIASs.AID), wanted, legacy, target, spare) ==> SDK.HoldsEither(c, v, wanted, legacy, pin, target, spare)
  {
    P11Objects.SizesShrink(false, Steady(c), FilesOf(c, MIASs.AID), wanted);
    P11Objects.SizesShrink(false, true, FilesOf(c, MIASs.AID), wanted);
    P11Objects.SizesShrink(false, Steady(c), FilesOf(c, MIASs.AID), legacy);
    hide P11Objects.SaneFiles, P11Objects.Sizes, SDK.P11Outcome, Steady;
  }

  /**
   What a call left behind: the card and the applet's record at its start, the card at its end, and what
   the call returned. In between, for an object of two names, `first` and `again` are outcome and end of
   the first session; for a signature or plain text, `again` is the card once the key is known.
   */
  datatype Made = Made(start: Card, view: Channels.View, first: int, again: Card, key: Option<KeyPair>, n: nat, card: Card, ret: int)

  /** The call has led from the start to the end: by one session, or by two where there are two names. */
  ghost predicate Leads(call: Call, r: Made)
    requires Permitted(r.start, call)
  {
    var s := Channels.Selected(r.start, r.view);
    match call
    case AvailableCertificate(_, pin) =>
      SDK.TwoNames(r.start, r.view, r.first, r.again, r.card, CERT_AVAILABLE, CERT_TYPE_A, pin, r.ret)
    case AvailableKey(_, _, _, pin) =>
      SDK.TwoNames(r.start, r.view, r.first, r.again, r.card, PRIV_AVAILABLE, PRIV_TYPE_A, pin, r.ret)
    case Sign(algorithm, hash, _, pin) =>
      && Channels.OneSession(r.start, r.view, r.card)
      && (s.ok ==>
            && SDK.OnceListed(s.card, r.again, s.view.channel, false)
            && EndsBy(if r.key.None? then Performed(r.again, ERR_BAD_KEY_NAME)
                      else SDK.Signing(r.again, s.view.channel, algorithm, r.key.value.kid, hash, pin, r.n), s.view.channel, r))
    case Decrypt(cipher, _, pin) =>
      && Channels.OneSession(r.start, r.view, r.card)
      && (s.ok ==>
            && SDK.OnceListed(s.card, r.again, s.view.channel, false)
            && EndsBy(if r.key.None? then Performed(r.again, ERR_BAD_KEY_NAME)
                      else SDK.Decrypting(r.again, s.view.channel, r.key.value.kid, cipher, pin), s.view.channel, r))
    case _ => Channels.OneSession(r.start, r.view, r.card)
  }

  /** These commands and the close of the channel were the call's last. */
  ghost predicate EndsBy(p: Performed, ch: byte, r: Made) {
    r.ret == p.ret && r.card == Send(p.card, Channels.Close(ch)).card
  }

  /** One public call. */
  method Make(sdk: SDK, call: Call) returns (ghost r: Made)
    requires sdk.Idle() && Permitted(sdk.Card(), call) && Buffers(call) !! sdk.mias.applet.Device()
    modifies sdk.Objects(), Buffers(call)
    ensures sdk.mias.applet.seiface == old(sdk.mias.applet.seiface) && sdk.Restored(old(sdk.Card()))
    ensures r.start == old(sdk.Card()) && r.view == old(sdk.mias.applet.View()) && r.card == sdk.Card() && Leads(call, r)
  {
    hide P11Objects.SaneFiles, P11Objects.Sizes, SaneIndex, SaneCertificates, CertificateSizes, SDK.PemFits, SDK.AnswersEnd, Steady,
         SDK.ReadSizes, SDK.LegacySizes, SDK.HoldsEither, Counted, ClosesSucceed, SDK.TwoNames, Channels.OneSession, Channels.Selected, Send,
         SDK.Signing, SDK.Decrypting, SDK.CertificateOutcome, MIASs.MIAS.Valid, Lookup, Undisturbed, Looked;
    ghost var c, v, fs := sdk.Card(), sdk.mias.applet.View(), FilesOf(sdk.Card(), MIASs.AID);
    ghost var first, again, key, n, result := 0, c, None, 0, 0;
    match call {
      case AvailableCertificate(cert, pin) =>
        AmpleHolds(c, v, CERT_AVAILABLE, CERT_TYPE_A, pin, cert, 0);
        var ret, size;
        ret, size, first, again := sdk.TobExtractAvailableCertificate(cert, pin);
        result := ret;
      case AvailableKey(pem, wantPemSize, der, pin) =>
        AmpleHolds(c, v, PRIV_AVAILABLE, PRIV_TYPE_A, pin, der, 1);
        FewerPem(SDK.ReadSizes(c, v, PRIV_AVAILABLE, pin) + SDK.LegacySizes(c, v, PRIV_AVAILABLE, PRIV_TYPE_A, pin),
                 P11Objects.Sizes(false, fs, PRIV_AVAILABLE) + P11Objects.Sizes(false, fs, PRIV_TYPE_A), 1, Pem.RSA_PRIVATE_KEY);
        var ret, pemSize, derSize;
        ret, pemSize, derSize, first, again := sdk.TobExtractAvailablePrivateKey(pem, wantPemSize, der, pin);
        result := ret;
      case SigningCertificate(pem, wantPemSize, der, pin) =>
        CertificateSizesShrink(false, sdk.Certain(c, fs), fs, 0);
        FewerPem(CertificateSizes(sdk.Certain(c, fs), fs, 0), CertificateSizes(false, fs, 0), 0, Pem.CERTIFICATE);
        var ret, pemSize, derSize := sdk.TobExtractSigningCertificate(pem, wantPemSize, der, pin);
        result := ret;
      case Sign(algorithm, hash, signature, pin) =>
        var ret, size;
        ret, size, again, n := sdk.TobSigningSign(algorithm, hash, signature, pin);
        key, result := Lookup(sdk.mias.Listed(), 0), ret;
      case Decrypt(cipher, plain, pin) =>
        var ret, size;
        ret, size, again := sdk.TobSigningDecrypt(cipher, plain, pin);
        key, result := Lookup(sdk.mias.Listed(), 0), ret;
      case KeyLength =>
        var ret := sdk.TobSigningLen();
        result := ret;
    }
    r := Made(c, v, first, again, key, n, sdk.Card(), result);
  }

  lemma FewerPem(few: set<nat>, many: set<nat>, extra: nat, header: seq<byte>)
    requires few <= many
    ensures forall n: nat :: SDK.PemFits(many, extra, header, n) ==> SDK.PemFits(few, extra, header, n)
  {
    hide Pem.DerToPemLen;
  }

  /** Each call has led on from where the one before it ended, and has left the channels open that were open at `c`. */
  ghost predicate Logged(c: Card, calls: seq<Call>, log: seq<Made>) {
    && |log| == |calls|
    && forall k :: 0 <= k < |log| ==>
         && log[k].start == Last(c, log[..k]) && log[k].card.open == c.open
         && Permitted(log[k].start, calls[k]) && Leads(calls[k], log[k])
  }

  /** The card after these calls. */
  function Last(c: Card, log: seq<Made>): Card {
    if log == [] then c else log[|log| - 1].card
  }

  lemma LoggedNone(c: Card)
    ensures Logged(c, [], [])
  {
  }

  lemma LoggedMore(c: Card, calls: seq<Call>, log: seq<Made>, call: Call, r: Made)
    requires Logged(c, calls, log)
    requires r.start == Last(c, log) && Permitted(r.start, call) && Leads(call, r) && r.card.open == c.open
    ensures Logged(c, calls + [call], log + [r]) && Last(c, log + [r]) == r.card
  {
    hide Permitted, Leads;
    forall k | 0 <= k <= |log|
      ensures (log + [r])[..k] == log[..k]
    {
    }
  }

  /** Any sequence of public calls. */
  method Serve(sdk: SDK, calls: seq<Call>) returns (ghost log: seq<Made>)
    requires sdk.Idle()
    requires forall call :: call in calls ==> Permitted(sdk.Card(), call) && Buffers(call) !! sdk.mias.applet.Device()
    modifies sdk.Objects(), set call, b | call in calls && b in Buffers(call) :: b
    ensures sdk.mias.applet.seiface == old(sdk.mias.applet.seiface) && sdk.Restored(old(sdk.Card()))
    ensures Logged(old(sdk.Card()), calls, log) && sdk.Card() == Last(old(sdk.Card()), log)
  {
    hide Permitted, Leads, Logged, Counted, ClosesSucceed, Buffers;
    ghost var c := sdk.Card();
    LoggedNone(c);
    Channels.Uncounted(c);
    log := [];
    for i := 0 to |calls|
      invariant sdk.mias.applet.seiface == old(sdk.mias.applet.seiface) && sdk.Restored(c)
      invariant Logged(c, calls[..i], log) && sdk.Card() == Last(c, log)
    {
      ghost var d := sdk.Card();
      assert calls[i] in calls && calls[..i + 1] == calls[..i] + [calls[i]];
      PermittedLater(c, d, calls[i]);
      ghost var r := Make(sdk, calls[i]);
      CountedMore(c, d, sdk.Card());
      LoggedMore(c, calls[..i], log, calls[i], r);
      log := log + [r];
    }
    assert calls[..|calls|] == calls;
  }

  /**
   The whole life of a program, on a card whose open channels are the program's own numbers: initialization
   and then its calls, each of which leaves no channel open.
   */
  method Use(seiface: SEInterface, calls: seq<Call>) returns (sdk: SDK, ghost start: Card, ghost log: seq<Made>)
    requires seiface.Idle() && ClosesSucceed(seiface.wire.card)
    requires forall k :: k in seiface.wire.card.open ==> 1 <= k <= MAX_CHANNEL
    requires forall call :: call in calls ==> Permitted(seiface.wire.card, call) && Buffers(call) !! seiface.Repr
    modifies seiface.Repr, set call, b | call in calls && b in Buffers(call) :: b
    ensures start.open == map[] && start.apps == old(seiface.wire.card).apps && Counted(old(seiface.wire.card), start)
    ensures Logged(start, calls, log)
    ensures sdk.Idle() && sdk.mias.applet.seiface == seiface && sdk.Card() == Last(start, log) && sdk.Card().open == map[]
  {
    hide Permitted, Leads, Logged, Counted, ClosesSucceed, Buffers;
    ghost var c := seiface.wire.card;
    sdk := new SDK();
    var ret := sdk.TobInitializeWithInterface(seiface);
    start := sdk.Card();
    assert sdk.Card().open.Keys == {};
    forall call | call in calls
      ensures Permitted(sdk.Card(), call)
    {
      PermittedLater(c, sdk.Card(), call);
    }
    log := Serve(sdk, calls);
  }
}
