/** What the card understands of the commands it receives, over whole calls. */
module Conversations {
  import opened Bytes
  import opened Cards
  import opened Channels
  import opened Chunks
  import opened Instructions
  import opened Pso
  import opened Sdk
  import MFs
  import MIASs

  // ---- Single commands ----

  lemma ClassBytes(ch: byte)
    requires ch < 4
    ensures OrBytes(0x00, ch) == ch && OrBytes(0x10, ch) == 0x10 + ch
  {
    RoutedClass(0x00, ch);
    ChainClass(ch);
  }

  /** Channels and applications. */
  lemma ChannelCommands(ch: byte, aid: seq<byte>)
    requires ch < 4 && 0 < |aid| < 256
    ensures Understood(OPEN) == OpenChannel && Understood(Close(ch)) == CloseChannel(ch)
    ensures Understood(SelectByName(ch, aid)) == SelectApplication(ch, aid)
    ensures Asked(OPEN) == Asked(Close(ch)) == Some(1) && Asked(SelectByName(ch, aid)) == None
  {
    ClassBytes(ch);
    PartsOfCases(ch, 0xA4, 0x04, 0x00, aid, 0);
    hide Or, Case3, Parsed;
    assert Parsed(OPEN) == Some(Parts(0x00, 0x70, 0x00, 0x00, [], Some(0x01))) by { PartsOfCases(0x00, 0x70, 0x00, 0x00, [], 0x01); }
    assert Parsed(Close(ch)) == Some(Parts(0x00, 0x70, 0x80, ch, [], Some(0x01))) by { PartsOfCases(0x00, 0x70, 0x80, ch, [], 0x01); }
  }

  /** The two applications. */
  lemma Applications(ch: byte)
    requires ch < 4
    ensures Understood(SelectByName(ch, MIASs.AID)) ==
            SelectApplication(ch, [0xA0, 0x00, 0x00, 0x00, 0x18, 0x80, 0x00, 0x00, 0x00, 0x06, 0x62, 0x41, 0x51])
    ensures Understood(SelectByName(ch, MFs.AID)) ==
            SelectApplication(ch, [0xA0, 0x00, 0x00, 0x00, 0x87, 0x10, 0x01, 0xFF, 0x33, 0xFF, 0xFF, 0x89, 0x01, 0x01, 0x01, 0x00])
  {
    ChannelCommands(ch, MIASs.AID);
    ChannelCommands(ch, MFs.AID);
    hide Understood, SelectByName;
  }

  /** Files. */
  lemma FileCommands(ch: byte, path: seq<byte>, le: Option<byte>, offset: nat, count: byte)
    requires ch < 4 && 0 < |path| < 256 && offset < 0x8000
    ensures Understood(PathCommand(ch, path, le)) == SelectFile(ch, path) && Asked(PathCommand(ch, path, le)) == le
    ensures Understood(ReadCommand(ch, offset, count)) == ReadBytes(ch, offset, count)
  {
    PartsOfCases(ch, 0xA4, 0x08, 0x04, path, if le.Some? then le.value else 0);
    PartsOfCases(ch, 0xB0, offset / 256, offset % 256, [], count);
    hide Case2, Case3, Case4, Parsed;
  }

  /** The PIN of MIAS goes as it is, that of MF padded to eight bytes with 0xFF. */
  lemma PinCommands(ch: byte, pin: seq<byte>)
    requires ch < 4
    ensures Understood(MIASs.VerifyCommand(ch, pin)) == if |pin| < 256 then CheckPin(ch, 0x81, pin) else Unknown
    ensures |pin| <= 8 ==>
              var block := Understood(MFs.VerifyMfCommand(ch, pin));
              && block.CheckPin? && block.channel == ch && block.reference == 0x01 && |block.pin| == 8
              && block.pin[..|pin|] == pin && forall k :: |pin| <= k < 8 ==> block.pin[k] == 0xFF
  {
    ClassBytes(ch);
    PartsOfCases(ch, 0x20, 0x00, 0x81, pin, 0);
    if |pin| <= 8 {
      PartsOfCases(ch, 0x20, 0x00, 0x01, MFs.PinBlock(pin), 0);
    }
    hide Or, Case3, Parsed;
  }

  /** Algorithm and key, each in its place, for signing and for deciphering. */
  lemma KeyCommands(ch: byte, algorithm: byte, key: byte)
    requires ch < 4
    ensures Understood(MIASs.InitCommand(ch, 0xB6, algorithm, key)) == ChooseKey(ch, true, algorithm, key)
    ensures Understood(MIASs.InitCommand(ch, 0xB8, algorithm, key)) == ChooseKey(ch, false, algorithm, key)
  {
    KeyCommand(ch, 0xB6, algorithm, key);
    KeyCommand(ch, 0xB8, algorithm, key);
    hide Understood, MIASs.InitCommand;
  }

  lemma KeyCommand(ch: byte, template: byte, algorithm: byte, key: byte)
    requires ch < 4 && template in {0xB6, 0xB8}
    ensures Understood(MIASs.InitCommand(ch, template, algorithm, key)) == ChooseKey(ch, template == 0xB6, algorithm, key)
  {
    ClassBytes(ch);
    var data: seq<byte> := [0x80, 0x01, algorithm, 0x84, 0x01, key];
    PartsOfCases(ch, 0x22, 0x41, template, data, 0);
    OneByteValues(algorithm, key);
    hide Or, Case3, Parsed, ValueUnder;
    assert MIASs.InitCommand(ch, template, algorithm, key) == Case3(ch, 0x22, 0x41, template, data);
  }

  lemma OneByteValues(a: byte, b: byte)
    ensures var data: seq<byte> := [0x80, 0x01, a, 0x84, 0x01, b];
            ValueUnder(0x80, data) == Some([a]) && ValueUnder(0x84, data) == Some([b])
  {
    var data: seq<byte> := [0x80, 0x01, a, 0x84, 0x01, b];
    var rest := data[3..];
    assert data[1] == 1 && data[2..3] == [a] && data[2 + data[1]..] == rest;
    assert rest == [0x84, 0x01, b] && rest[1] == 1 && rest[2..3] == [b];
  }

  /** A digest to be signed. */
  lemma DigestCommands(ch: byte, digest: seq<byte>)
    requires ch < 4 && |digest| < 254
    ensures Understood(MIASs.DigestCommand(ch, digest)) == TakeHash(ch, digest) && Asked(MIASs.DigestCommand(ch, digest)) == Some(0)
  {
    ClassBytes(ch);
    var data: seq<byte> := [0x90, |digest|] + digest;
    PartsOfCases(ch, 0x2A, 0x90, 0xA0, data, 0x00);
    assert data[2..2 + |digest|] == digest;
    assert ValueUnder(0x90, data) == Some(digest);
    hide Or, Case4, Parsed, ValueUnder;
    assert MIASs.DigestCommand(ch, digest) == Case4(ch, 0x2A, 0x90, 0xA0, data, 0x00);
  }

  /** The request to sign it, and those for the rest of the signature. */
  lemma SignatureCommands(ch: byte, le: byte, a: Option<Answer>)
    requires ch < 4
    ensures Understood(Case2(ch, PSO, 0x9E, 0x9A, le)) == ComputeSignature(ch, le)
    ensures Understood(Continuation(ch, a)) == Continue(ch, if a.None? then 0 else a.value[|a.value| - 1])
  {
    PartsOfCases(ch, 0x2A, 0x9E, 0x9A, [], le);
    PartsOfCases(ch, 0xC2, 0x00, 0x00, [], if a.None? then 0 else a.value[|a.value| - 1]);
    hide Case2, Parsed;
  }

  /** Blocks of data to be hashed or deciphered, of up to 255 bytes. */
  lemma BlockCommands(ch: byte, block: seq<byte>)
    requires ch < 4 && block != []
    ensures Understood(Case3(ch, PSO, 0x90, 0x80, block)) == if |block| < 256 then HashBlock(ch, block) else Unknown
    ensures Understood(Case3(ch, PSO, 0x80, 0x86, block)) == if |block| < 256 then DecipherBlock(ch, false, block) else Unknown
    ensures Understood(Case3(OrBytes(0x10, ch), PSO, 0x80, 0x86, block)) == if |block| < 256 then DecipherBlock(ch, true, block) else Unknown
  {
    ClassBytes(ch);
    hide Or, Case3, Understood;
    BlockCommand(ch, ch, 0x90, 0x80, block);
    BlockCommand(ch, ch, 0x80, 0x86, block);
    BlockCommand(0x10 + ch, ch, 0x80, 0x86, block);
  }

  lemma BlockCommand(cla: byte, ch: byte, p1: byte, p2: byte, block: seq<byte>)
    requires ch < 4 && block != [] && cla in {ch, 0x10 + ch}
    ensures var i := Understood(Case3(cla, PSO, p1, p2, block));
            && (|block| >= 256 ==> i == Unknown)
            && (|block| < 256 && p1 == 0x90 && p2 == 0x80 && cla == ch ==> i == HashBlock(ch, block))
            && (|block| < 256 && p1 == 0x80 && p2 == 0x86 ==> i == DecipherBlock(ch, cla != ch, block))
  {
    PartsOfCases(cla, 0x2A, p1, p2, block, 0);
    hide Case3, Parsed, KeyChoice, ValueUnder;
  }

  /** The request for an answer that was not handed out. */
  lemma FetchCommand(ch: byte)
    requires ch < 4
    ensures Understood(Case1(ch, GET_RESPONSE, 0x00, 0x00)) == FetchAnswer(ch)
  {
    PartsOfCases(ch, 0xC0, 0x00, 0x00, [], 0);
    hide Case1, Parsed, KeyChoice, ValueUnder;
  }

  /** Digests are as long as their algorithms say, in bits. */
  lemma DigestLengths(algorithm: byte)
    ensures var l := MIASs.MIAS.DigestLength(algorithm);
            match algorithm
            case 0x10 => l == Some(160 / 8)
            case 0x30 => l == Some(224 / 8)
            case 0x40 => l == Some(256 / 8)
            case 0x50 => l == Some(384 / 8)
            case 0x60 => l == Some(512 / 8)
            case _ => l == None
  {
  }

  // ---- Conversations ----

  function AllUnderstood(commands: seq<seq<byte>>): (told: seq<Instruction>)
    ensures |told| == |commands|
  {
    if commands == [] then [] else [Understood(commands[0])] + AllUnderstood(commands[1..])
  }

  lemma {:induction false} UnderstoodAppend(a: seq<seq<byte>>, b: seq<seq<byte>>)
    ensures AllUnderstood(a + b) == AllUnderstood(a) + AllUnderstood(b)
  {
    hide Understood;
    if a == [] {
      assert a + b == b;
    } else {
      assert (a + b)[1..] == a[1..] + b;
      UnderstoodAppend(a[1..], b);
    }
  }

  lemma {:induction false} UnderstoodPrefix(a: seq<seq<byte>>, b: seq<seq<byte>>)
    requires a <= b
    ensures AllUnderstood(a) <= AllUnderstood(b)
  {
    assert b == a + b[|a|..];
    UnderstoodAppend(a, b[|a|..]);
  }

  /** What the card has been told since it was `c`. */
  function Told(c: Card, d: Card): seq<Instruction>
    requires c.received <= d.received
  {
    AllUnderstood(d.received[|c.received|..])
  }

  lemma ToldMore(c: Card, d: Card, e: Card)
    requires c.received <= d.received <= e.received
    ensures Told(c, e) == Told(c, d) + Told(d, e)
  {
    assert e.received[|c.received|..] == d.received[|c.received|..] + e.received[|d.received|..];
    UnderstoodAppend(d.received[|c.received|..], e.received[|d.received|..]);
  }

  /** One command, unless it is lost. */
  lemma ToldOne(c: Card, apdu: seq<byte>)
    requires |apdu| >= 4
    ensures var s := Send(c, apdu);
            c.received <= s.card.received && Told(c, s.card) == if s.answer.Some? then [Understood(apdu)] else []
  {
    SendCounted(c, apdu);
    hide Send, Understood;
    var s := Send(c, apdu);
    if s.answer.Some? {
      assert s.card.received[|c.received|..] == [apdu];
      assert [apdu][1..] == [];
    } else {
      assert s.card.received[|c.received|..] == [];
    }
  }

  /** Commands sent one after the other until one fails. */
  lemma ToldPlayed(c: Card, commands: seq<seq<byte>>, ch: byte, last: Answer)
    requires ch in c.open && AllOpaque(commands, ch)
    ensures var p := Play(c, commands, last);
            && c.received <= p.card.received && Told(c, p.card) <= AllUnderstood(commands)
            && (p.answer.Some? ==> Told(c, p.card) == AllUnderstood(commands))
  {
    PlayHeard(c, commands, ch, last);
    hide Play, Undisturbed;
    UnderstoodPrefix(Play(c, commands, last).card.received[|c.received|..], commands);
  }

  /** Requests for a signature: the first for all of it, then one for as many bytes as the answer before it has promised last. */
  function Request(c: Card, ch: byte, k: nat): Instruction {
    if k == 0 then ComputeSignature(ch, 0)
    else
      var a := Collected(c, ch, k - 1).answer;
      Continue(ch, if a.None? then 0 else a.value[|a.value| - 1])
  }

  /** The chain that collects a signature tells the card just these, as long as its commands arrive. */
  lemma {:induction false} ChainTold(c: Card, ch: byte, n: nat)
    requires ch in c.open && ch < 4 && forall k: nat :: k < n ==> Collected(c, ch, k).answer.Some?
    ensures var s := Collected(c, ch, n);
            && c.received <= s.card.received
            && Told(c, s.card) == seq(if s.answer.Some? then n + 1 else n, k requires 0 <= k => Request(c, ch, k))
  {
    hide Collected, Send, Understood, Told, Undisturbed;
    NextCollected(c, ch, n);
    if n == 0 {
      SignatureCommands(ch, 0, None);
      ToldOne(c, Case2(ch, PSO, 0x9E, 0x9A, 0x00));
    } else {
      ChainTold(c, ch, n - 1);
      var s := Collected(c, ch, n - 1);
      var apdu := Continuation(ch, s.answer);
      SignatureCommands(ch, 0, s.answer);
      ToldOne(s.card, apdu);
      ToldMore(c, s.card, Send(s.card, apdu).card);
    }
  }

  /** In bytes: ENVELOPE with the last byte of the answer before it. */
  lemma ContinuationBytes(c: Card, ch: byte, k: nat)
    requires ch in c.open && ch < 4 && Collected(c, ch, k).answer.Some? && Collected(c, ch, k + 1).answer.Some?
    ensures var a, r := Collected(c, ch, k).answer.value, Collected(c, ch, k + 1).card.received;
            r != [] && r[|r| - 1] == [ch, 0xC2, 0x00, 0x00, a[|a| - 1]]
  {
    NextCollected(c, ch, k + 1);
    CollectedStays(c, ch, k);
    var s := Collected(c, ch, k);
    SendOpaque(s.card, Continuation(ch, s.answer), ch);
    hide Collected, Send, Undisturbed;
  }

  /** The `k`-th answer holds data, and these are its status bytes. */
  predicate Ending(c: Card, ch: byte, k: nat, sw1: byte) {
    var a := Collected(c, ch, k).answer; a.Some? && |a.value| > 2 && a.value[|a.value| - 2] == sw1
  }

  /** What the `k`-th answer holds before its status bytes. */
  function Piece(c: Card, ch: byte, k: nat): seq<byte> {
    var a := Collected(c, ch, k).answer; if a.Some? then a.value[..|a.value| - 2] else []
  }

  /**
   A signature comes in parts: it is collected exactly when every part but the last ends with 61xx and
   the last with 9000, and is then the parts in their order.
   */
  lemma PartsCollected(c: Card, ch: byte, n: nat)
    ensures Ends(c, ch, n) && Completes(c, ch, n) <==>
            && (forall k: nat :: k < n ==> Ending(c, ch, k, 0x61))
            && Ending(c, ch, n, 0x90) && var a := Collected(c, ch, n).answer.value; a[|a| - 1] == 0x00
    ensures AllData(c, ch, n + 1) == Concat(seq(n + 1, k requires 0 <= k => Piece(c, ch, k)))
  {
    hide Collected;
    PartsConcat(c, ch, n + 1);
    forall k: nat
      ensures Ending(c, ch, k, 0x61) == Continues(c, ch, k)
    {
    }
    if Ending(c, ch, n, 0x90) {
      assert !Continues(c, ch, n);
    }
  }

  lemma {:induction false} PartsConcat(c: Card, ch: byte, n: nat)
    ensures AllData(c, ch, n) == Concat(seq(n, k requires 0 <= k => Piece(c, ch, k)))
  {
    hide Collected;
    var parts := seq(n, k requires 0 <= k => Piece(c, ch, k));
    if n > 0 {
      PartsConcat(c, ch, n - 1);
      assert parts == seq(n - 1, k requires 0 <= k => Piece(c, ch, k)) + [Piece(c, ch, n - 1)];
      ConcatLast(seq(n - 1, k requires 0 <= k => Piece(c, ch, k)), Piece(c, ch, n - 1));
    }
  }

  lemma {:induction false} ConcatLast<T>(blocks: seq<seq<T>>, last: seq<T>)
    ensures Concat(blocks + [last]) == Concat(blocks) + last
  {
    if blocks == [] {
      assert blocks + [last] == [last] && [last][1..] == [];
    } else {
      assert (blocks + [last])[1..] == blocks[1..] + [last];
      ConcatLast(blocks[1..], last);
    }
  }

  // ---- Calls ----

  /** What a signing call tells the card from the PIN check on: `n` answers promise more before the last. */
  ghost function SigningScript(d: Card, ch: byte, algorithm: byte, kid: byte, hash: seq<byte>, pin: seq<byte>, n: nat): seq<Instruction>
    requires SDK.HashFits(algorithm, hash)
  {
    var digest, l := SDK.DigestSent(d, ch, algorithm, kid, hash, pin), MIASs.MIAS.DigestLength(algorithm / 16 * 16);
    KeySteps(ch, pin, true, algorithm, kid)
    + if digest.None? || l.None? then [] else [TakeHash(ch, hash[..l.value])] + seq(n + 1, k requires 0 <= k => Request(digest.value.card, ch, k))
  }

  /**
   It tells the card this up to where it fails, and all of it when it succeeds. It reports the PIN as
   refused exactly when the card does not accept the check, and success exactly when the card accepts the
   key and the digest and the signature completes.
   */
  lemma SigningTold(d: Card, ch: byte, algorithm: byte, kid: byte, hash: seq<byte>, pin: seq<byte>, n: nat)
    requires ch in d.open && ch in {1, 2, 3} && SDK.HashFits(algorithm, hash) && SDK.SigningEnds(d, ch, algorithm, kid, hash, pin, n)
    ensures var p, script := SDK.Signing(d, ch, algorithm, kid, hash, pin, n), SigningScript(d, ch, algorithm, kid, hash, pin, n);
            && d.received <= p.card.received && Told(d, p.card) <= script
            && (p.ret == 0 ==> Told(d, p.card) == script)
            && p.ret in {0, ERR_EF_VERIFY_PIN, ERR_BAD_KEY_NAME}
            && (p.ret == ERR_EF_VERIFY_PIN <==> !Send(d, MIASs.VerifyCommand(ch, pin)).Succeeded())
            && (p.ret == 0 <==>
                  var digest := SDK.DigestSent(d, ch, algorithm, kid, hash, pin);
                  digest.Some? && digest.value.Succeeded() && Completes(digest.value.card, ch, n))
  {
    hide Send, Told, Understood, Collected, Ends, Completes, KeySteps, MIASs.VerifyCommand, MIASs.InitCommand, MIASs.DigestCommand, Request;
    KeyTold(d, ch, pin, true, algorithm, kid);
    var chosen := Send(Send(d, MIASs.VerifyCommand(ch, pin)).card, MIASs.InitCommand(ch, 0xB6, algorithm, kid));
    var digest := SDK.DigestSent(d, ch, algorithm, kid, hash, pin);
    if digest.Some? {
      var block := hash[..MIASs.MIAS.DigestLength(algorithm / 16 * 16).value];
      DigestTold(chosen.card, ch, block, n);
      ToldMore(d, chosen.card, if digest.value.Succeeded() then Collected(digest.value.card, ch, n).card else digest.value.card);
    }
  }

  function KeySteps(ch: byte, pin: seq<byte>, forSigning: bool, algorithm: byte, kid: byte): (steps: seq<Instruction>)
    ensures |steps| == 2
  {
    [if |pin| < 256 then CheckPin(ch, 0x81, pin) else Unknown, ChooseKey(ch, forSigning, algorithm, kid)]
  }

  lemma KeyOpaque(ch: byte, pin: seq<byte>, template: byte, algorithm: byte, kid: byte)
    requires ch < 4
    ensures OpaqueCommand(MIASs.VerifyCommand(ch, pin), ch) && OpaqueCommand(MIASs.InitCommand(ch, template, algorithm, kid), ch)
  {
    ClassBytes(ch);
    hide Or;
  }

  /** PIN check and choice of the key. */
  lemma KeyTold(d: Card, ch: byte, pin: seq<byte>, forSigning: bool, algorithm: byte, kid: byte)
    requires ch in d.open && ch in {1, 2, 3}
    ensures var verified := Send(d, MIASs.VerifyCommand(ch, pin));
            var chosen := Send(verified.card, MIASs.InitCommand(ch, if forSigning then 0xB6 else 0xB8, algorithm, kid));
            var script := KeySteps(ch, pin, forSigning, algorithm, kid);
            && d.received <= verified.card.received && Told(d, verified.card) <= script[..1]
            && (verified.Succeeded() ==> d.received <= chosen.card.received && Told(d, chosen.card) <= script)
            && (verified.Succeeded() && chosen.Succeeded() ==> Told(d, chosen.card) == script && ch in chosen.card.open)
  {
    hide Send, Told, Understood, Undisturbed, MIASs.VerifyCommand, MIASs.InitCommand;
    var verify, init := MIASs.VerifyCommand(ch, pin), MIASs.InitCommand(ch, if forSigning then 0xB6 else 0xB8, algorithm, kid);
    PinCommands(ch, pin);
    KeyCommands(ch, algorithm, kid);
    KeyOpaque(ch, pin, if forSigning then 0xB6 else 0xB8, algorithm, kid);
    var verified := Send(d, verify);
    ToldOne(d, verify);
    SendOpaque(d, verify, ch);
    var chosen := Send(verified.card, init);
    ToldOne(verified.card, init);
    SendOpaque(verified.card, init, ch);
    ToldMore(d, verified.card, chosen.card);
  }

  lemma DigestTold(c: Card, ch: byte, digest: seq<byte>, n: nat)
    requires ch in c.open && ch in {1, 2, 3} && |digest| < 254
    requires var s := Send(c, MIASs.DigestCommand(ch, digest)); s.Succeeded() ==> Ends(s.card, ch, n)
    ensures var s := Send(c, MIASs.DigestCommand(ch, digest));
            var d := if s.Succeeded() then Collected(s.card, ch, n).card else s.card;
            var script := [TakeHash(ch, digest)] + seq(n + 1, k requires 0 <= k => Request(s.card, ch, k));
            && c.received <= d.received && Told(c, d) <= script
            && (s.Succeeded() && Completes(s.card, ch, n) ==> Told(c, d) == script)
  {
    hide Send, Told, Understood, Collected, Undisturbed;
    var apdu := MIASs.DigestCommand(ch, digest);
    DigestCommands(ch, digest);
    ClassBytes(ch);
    ToldOne(c, apdu);
    var s := Send(c, apdu);
    if s.Succeeded() {
      SendOpaque(c, apdu, ch);
      forall k: nat | k < n
        ensures Collected(s.card, ch, k).answer.Some?
      {
        assert Continues(s.card, ch, k);
      }
      ChainTold(s.card, ch, n);
      ToldMore(c, s.card, Collected(s.card, ch, n).card);
    }
  }

  /** The blocks of a cipher text of up to 509 bytes, each but the last marked as followed by more, and only of such a one. */
  lemma BlocksUnderstood(ch: byte, data: seq<byte>)
    requires ch < 4
    ensures AllUnderstood(DecipherCommands(ch, data)) ==
            if |data| < 255 then [DecipherBlock(ch, false, [0x81] + data)]
            else [DecipherBlock(ch, true, [0x81] + data[..254]), if |data| <= 509 then DecipherBlock(ch, false, data[254..]) else Unknown]
  {
    var commands := DecipherCommands(ch, data);
    hide Understood;
    if |data| < 255 {
      BlockCommands(ch, [0x81] + data);
      assert |commands[1..]| == 0;
    } else {
      BlockCommands(ch, [0x81] + data[..254]);
      BlockCommands(ch, data[254..]);
      var rest := commands[1..];
      assert rest == [commands[1]] && |rest[1..]| == 0;
    }
  }

  /** What a deciphering call tells the card from the PIN check on. */
  function DecryptingScript(ch: byte, kid: byte, cipher: seq<byte>, pin: seq<byte>): seq<Instruction> {
    KeySteps(ch, pin, false, 0x1A, kid)
    + (if |cipher| < 255 then [DecipherBlock(ch, false, [0x81] + cipher)]
       else [DecipherBlock(ch, true, [0x81] + cipher[..254]), if |cipher| <= 509 then DecipherBlock(ch, false, cipher[254..]) else Unknown])
  }

  /** It tells the card this up to where it fails, and on success all of it and then, if the last answer carries no data, to hand them out. */
  lemma DecryptingTold(d: Card, ch: byte, kid: byte, cipher: seq<byte>, pin: seq<byte>)
    requires ch in d.open && ch in {1, 2, 3}
    ensures var p, script := SDK.Decrypting(d, ch, kid, cipher, pin), DecryptingScript(ch, kid, cipher, pin);
            && d.received <= p.card.received && Told(d, p.card) <= script + [FetchAnswer(ch)]
            && (p.ret == 0 ==> script <= Told(d, p.card))
            && p.ret in {0, ERR_EF_VERIFY_PIN, ERR_BAD_KEY_NAME}
            && (p.ret == ERR_EF_VERIFY_PIN <==> !Send(d, MIASs.VerifyCommand(ch, pin)).Succeeded())
  {
    hide Send, Told, Understood, Decipher, KeySteps, MIASs.VerifyCommand, MIASs.InitCommand, DecipherCommands;
    KeyTold(d, ch, pin, false, 0x1A, kid);
    var verified := Send(d, MIASs.VerifyCommand(ch, pin));
    var chosen := Send(verified.card, MIASs.InitCommand(ch, 0xB8, 0x1A, kid));
    if verified.Succeeded() && chosen.Succeeded() {
      DecipherTold(chosen.card, ch, cipher);
      BlocksUnderstood(ch, cipher);
      ToldMore(d, chosen.card, Decipher(chosen.card, ch, cipher).card);
    }
  }

  /** The answer to the last block is the plain text; if it is empty, that to the request for it. */
  lemma DecipherTold(c: Card, ch: byte, cipher: seq<byte>)
    requires ch in c.open && ch in {1, 2, 3}
    ensures var p, blocks := Decipher(c, ch, cipher), AllUnderstood(DecipherCommands(ch, cipher));
            var last := Play(c, DecipherCommands(ch, cipher), [0x90, 0x00]);
            && c.received <= p.card.received
            && (last.answer.None? ==> Told(c, p.card) <= blocks && p.plain.None?)
            && (last.answer.Some? && |last.answer.value| > 2 ==>
                  Told(c, p.card) == blocks && p.plain == Some(last.answer.value[..|last.answer.value| - 2]))
            && (last.answer.Some? && |last.answer.value| == 2 ==>
                  var fetched := Send(last.card, [ch, 0xC0, 0x00, 0x00]);
                  && Told(c, p.card) == blocks + (if fetched.answer.Some? then [FetchAnswer(ch)] else [])
                  && p.plain == if fetched.answer.Some? && Sw(fetched.answer.value) == 0x9000
                                then Some(fetched.answer.value[..|fetched.answer.value| - 2]) else None)
  {
    hide Send, Play, Told, Understood, DecipherCommands;
    DecipherOpaque(ch, cipher);
    ToldPlayed(c, DecipherCommands(ch, cipher), ch, [0x90, 0x00]);
    var last := Play(c, DecipherCommands(ch, cipher), [0x90, 0x00]);
    if last.answer.Some? && |last.answer.value| == 2 {
      var apdu := Case1(ch, GET_RESPONSE, 0x00, 0x00);
      FetchCommand(ch);
      ToldOne(last.card, apdu);
      ToldMore(c, last.card, Send(last.card, apdu).card);
    }
  }

  /** Hashing tells the card nothing but blocks to be hashed, which make up the data when it succeeds. */
  lemma HashTold(c: Card, ch: byte, block: nat, data: seq<byte>, last: Answer)
    requires 0 < block < 256 && ch < 4 && ch in c.open
    ensures var p := Play(c, HashCommands(ch, block, data), last);
            && c.received <= p.card.received
            && (forall i :: i in Told(c, p.card) ==> i.HashBlock? && i.channel == ch)
            && (p.answer.Some? ==> Concat(Blocks(Told(c, p.card))) == data)
  {
    hide Play, Told, Understood, HashCommands;
    HashCommandsOpaque(ch, block, data);
    ToldPlayed(c, HashCommands(ch, block, data), ch, last);
    HashUnderstood(ch, block, data);
    var told := Told(c, Play(c, HashCommands(ch, block, data), last).card);
    assert forall i :: i in told ==> i in AllUnderstood(HashCommands(ch, block, data));
  }

  /** The data of blocks to be hashed. */
  function Blocks(told: seq<Instruction>): seq<seq<byte>>
    requires forall i :: i in told ==> i.HashBlock?
  {
    if told == [] then [] else [told[0].block] + Blocks(told[1..])
  }

  lemma {:induction false} HashUnderstood(ch: byte, block: nat, data: seq<byte>)
    requires 0 < block < 256 && ch < 4
    ensures var told := AllUnderstood(HashCommands(ch, block, data));
            (forall i :: i in told ==> i.HashBlock? && i.channel == ch) && Concat(Blocks(told)) == data
    decreases |data|
  {
    hide Understood;
    if data != [] {
      var l := Min(block, |data|);
      BlockCommands(ch, data[..l]);
      HashUnderstood(ch, block, data[l..]);
      var commands := HashCommands(ch, block, data);
      assert commands[1..] == HashCommands(ch, block, data[l..]);
      var told := AllUnderstood(commands);
      assert told[1..] == AllUnderstood(commands[1..]);
      assert Blocks(told)[0] == data[..l] && Blocks(told)[1..] == Blocks(told[1..]);
    }
  }
}
