/** The cryptographic commands of the MIAS applet: command chains and collected answers. */
module Pso {
  import opened Bytes
  import opened Cards

  const PSO: byte := 0x2A
  const MSE: byte := 0x22
  const PADDING: byte := 0x81

  datatype Played = Played(card: Card, answer: Option<Answer>)

  /** Commands sent one after the other as long as each succeeds; the last answer (at first `last`) if all did. */
  function Play(c: Card, commands: seq<seq<byte>>, last: Answer): Played
    requires forall k :: 0 <= k < |commands| ==> |commands[k]| >= 4
    decreases |commands|
  {
    if commands == [] then Played(c, Some(last))
    else
      var s := Send(c, commands[0]);
      if s.Succeeded() then Play(s.card, commands[1..], s.answer.value) else Played(s.card, None)
  }

  /** The data fields of a list of commands. */
  function Bodies(commands: seq<seq<byte>>): (b: seq<seq<byte>>)
    ensures |b| == |commands|
  {
    if commands == [] then [] else [Body(commands[0])] + Bodies(commands[1..])
  }

  /** Command chaining (ISO/IEC 7816-4, 5.1.1.1): bit 5 of the class byte on every command but the last. */
  predicate Chained(commands: seq<seq<byte>>) {
    forall k :: 0 <= k < |commands| ==>
      commands[k] != [] && (commands[k][0] / 16 % 2 == 1 <==> k < |commands| - 1)
  }

  lemma BodyOfCase3(cla: byte, ins: byte, p1: byte, p2: byte, data: seq<byte>)
    ensures Body(Case3(cla, ins, p1, p2, data)) == data[..|data| % 256]
  {
    var apdu := Case3(cla, ins, p1, p2, data);
    if data != [] {
      assert apdu[4] == |data| % 256 && 5 + |data| % 256 <= |apdu|;
      assert apdu[5..5 + |data| % 256] == data[..|data| % 256];
    }
  }

  // ---- Hashing on the card ----

  function HashCommands(ch: byte, block: nat, data: seq<byte>): (cs: seq<seq<byte>>)
    requires 0 < block < 256
    ensures forall k :: 0 <= k < |cs| ==> |cs[k]| >= 4
    decreases |data|
  {
    if data == [] then []
    else
      var l := Min(block, |data|);
      [Case3(ch, PSO, 0x90, 0x80, data[..l])] + HashCommands(ch, block, data[l..])
  }

  /** The blocks sent concatenate to the data; all are full except possibly the last, which is not empty. */
  lemma {:induction false} HashBlocks(ch: byte, block: nat, data: seq<byte>)
    requires 0 < block < 256
    ensures var bodies := Bodies(HashCommands(ch, block, data));
            && Concat(bodies) == data
            && forall k :: 0 <= k < |bodies| ==>
                 0 < |bodies[k]| <= block && (k < |bodies| - 1 ==> |bodies[k]| == block)
    decreases |data|
  {
    if data != [] {
      var l := Min(block, |data|);
      var commands, rest := HashCommands(ch, block, data), HashCommands(ch, block, data[l..]);
      HashBlocks(ch, block, data[l..]);
      BodyOfCase3(ch, PSO, 0x90, 0x80, data[..l]);
      assert data[..l][..l] == data[..l];
      hide Body, Case3;
      assert commands[1..] == rest;
      assert Body(commands[0]) == data[..l];
      assert Bodies(commands) == [data[..l]] + Bodies(rest);
      assert Bodies(commands)[1..] == Bodies(rest);
    }
  }

  /** Hashing the data from `i` on: its first block, and the rest if that succeeds. */
  lemma PlayBlock(c: Card, ch: byte, block: nat, data: seq<byte>, i: nat, l: nat, last: Answer)
    requires 0 < block < 256 && i < |data| && l == Min(block, |data| - i)
    ensures var s := Send(c, Case3(ch, PSO, 0x90, 0x80, data[i..i + l]));
            Play(c, HashCommands(ch, block, data[i..]), last) ==
            if s.Succeeded() then Play(s.card, HashCommands(ch, block, data[i + l..]), s.answer.value) else Played(s.card, None)
  {
    hide Send;
    var rest := data[i..];
    assert rest[..l] == data[i..i + l] && rest[l..] == data[i + l..];
    var commands := HashCommands(ch, block, rest);
    assert commands[0] == Case3(ch, PSO, 0x90, 0x80, data[i..i + l]) && commands[1..] == HashCommands(ch, block, data[i + l..]);
  }

  lemma PlayNothing(c: Card, ch: byte, block: nat, last: Answer)
    requires 0 < block < 256
    ensures Play(c, HashCommands(ch, block, []), last) == Played(c, Some(last))
  {
  }

  // ---- Deciphering ----

  /** The commands that carry the padding indicator and the cipher text; two when they do not fit one. */
  function DecipherCommands(ch: byte, data: seq<byte>): (cs: seq<seq<byte>>)
    ensures forall k :: 0 <= k < |cs| ==> |cs[k]| >= 4
  {
    if |data| < 255 then [Case3(ch, PSO, 0x80, 0x86, [PADDING] + data)]
    else [Case3(OrBytes(0x10, ch), PSO, 0x80, 0x86, [PADDING] + data[..254]), Case3(ch, PSO, 0x80, 0x86, data[254..])]
  }

  /** What is chained is the padding indicator and the whole cipher text, exactly up to 509 bytes of it. */
  lemma DecipherBlocks(ch: byte, data: seq<byte>)
    requires ch < 4
    ensures var commands := DecipherCommands(ch, data);
            && Chained(commands)
            && (forall b :: b in Bodies(commands) ==> |b| <= 255)
            && (Concat(Bodies(commands)) == [PADDING] + data <==> |data| <= 509)
  {
    if |data| < 255 {
      OneBlock(ch, data);
    } else {
      TwoBlocks(ch, data);
    }
  }

  lemma OneBlock(ch: byte, data: seq<byte>)
    requires ch < 4 && |data| < 255
    ensures var commands := DecipherCommands(ch, data);
            && Chained(commands) && Bodies(commands) == [[PADDING] + data] && Concat(Bodies(commands)) == [PADDING] + data
  {
    var all := [PADDING] + data;
    BodyOfCase3(ch, PSO, 0x80, 0x86, all);
    assert all[..|all|] == all;
    assert Bodies(DecipherCommands(ch, data)) == [all];
    assert Concat([all]) == all;
  }

  lemma ChainClass(ch: byte)
    requires ch < 4
    ensures OrBytes(0x10, ch) == 0x10 + ch
  {
    assert Pow2(4) == 16;
    OrAdds(1, ch, 4);
  }

  lemma TwoBlocks(ch: byte, data: seq<byte>)
    requires ch < 4 && 255 <= |data|
    ensures var commands, rest := DecipherCommands(ch, data), data[254..];
            && Chained(commands) && Bodies(commands) == [[PADDING] + data[..254], rest[..|rest| % 256]]
            && (Concat(Bodies(commands)) == [PADDING] + data <==> |data| <= 509)
  {
    ChainClass(ch);
    hide Or;
    var commands := DecipherCommands(ch, data);
    var first, second := [PADDING] + data[..254], data[254..];
    var sent := second[..|second| % 256];
    BodyOfCase3(OrBytes(0x10, ch), PSO, 0x80, 0x86, first);
    BodyOfCase3(ch, PSO, 0x80, 0x86, second);
    hide Body, Case3;
    TwoBodies(commands, first, sent);
    assert |second| <= 255 ==> sent == second && first + second == [PADDING] + data;
  }

  lemma TwoBodies(commands: seq<seq<byte>>, a: seq<byte>, b: seq<byte>)
    requires |commands| == 2 && Body(commands[0]) == a && Body(commands[1]) == b
    ensures Bodies(commands) == [a, b] && Concat(Bodies(commands)) == a + b
  {
    hide Body;
    assert commands[1..] == [commands[1]];
    assert Bodies([commands[1]]) == [b] + Bodies([]);
    assert [a, b][1..] == [b] && Concat([b]) == b;
  }

  datatype Deciphered = Deciphered(card: Card, plain: Option<seq<byte>>)

  /** The plain text is the answer's data, fetched with GET RESPONSE when the answer carries none. */
  function Fetched(c: Card, ch: byte, a: Answer): Deciphered {
    if |a| > 2 then Deciphered(c, Some(Data(a)))
    else
      var s := Send(c, Case1(ch, GET_RESPONSE, 0x00, 0x00));
      Deciphered(s.card, if s.Succeeded() then Some(Data(s.answer.value)) else None)
  }

  function Decipher(c: Card, ch: byte, data: seq<byte>): Deciphered {
    var p := Play(c, DecipherCommands(ch, data), [0x90, 0x00]);
    if p.answer.None? then Deciphered(p.card, None) else Fetched(p.card, ch, p.answer.value)
  }

  lemma PlayOne(c: Card, command: seq<byte>, last: Answer)
    requires |command| >= 4
    ensures var s := Send(c, command);
            Play(c, [command], last) == Played(s.card, if s.Succeeded() then s.answer else None)
  {
    hide Send;
  }

  lemma PlayTwo(c: Card, first: seq<byte>, second: seq<byte>, last: Answer)
    requires |first| >= 4 && |second| >= 4
    ensures var s := Send(c, first);
            Play(c, [first, second], last) ==
            if s.Succeeded() then Play(s.card, [second], s.answer.value) else Played(s.card, None)
  {
    hide Send;
    assert [first, second][1..] == [second];
  }

  // ---- What the card has received ----

  ghost predicate AllOpaque(commands: seq<seq<byte>>, ch: byte) {
    forall k :: 0 <= k < |commands| ==> |commands[k]| >= 4 && OpaqueCommand(commands[k], ch)
  }

  /** Playing opaque commands disturbs nothing but the card's own channel, and the card receives a prefix of them: all on success. */
  lemma {:induction false} PlayHeard(c: Card, commands: seq<seq<byte>>, ch: byte, last: Answer)
    requires ch in c.open && AllOpaque(commands, ch)
    ensures var p := Play(c, commands, last);
            && Undisturbed(c, p.card, ch) && ch in p.card.open
            && c.received <= p.card.received && p.card.received[|c.received|..] <= commands
            && (p.answer.Some? ==> p.card.received == c.received + commands)
    decreases |commands|
  {
    HeardNothing(c, ch);
    if commands != [] {
      SendOpaque(c, commands[0], ch);
      var s := Send(c, commands[0]);
      assert ch in s.card.open;
      hide Send, Undisturbed;
      if s.Succeeded() {
        PlayHeard(s.card, commands[1..], ch, s.answer.value);
        var p := Play(s.card, commands[1..], s.answer.value);
        Onwards(c, s.card, p.card, ch);
        Appended(c.received, commands, p.card.received);
      }
    }
  }

  lemma Appended<T>(before: seq<T>, items: seq<T>, after: seq<T>)
    requires items != [] && before + [items[0]] <= after && after[|before| + 1..] <= items[1..]
    ensures before <= after && after[|before|..] <= items
    ensures after == before + [items[0]] + items[1..] ==> after == before + items
  {
    assert items == [items[0]] + items[1..];
    assert after[|before|..] == [items[0]] + after[|before| + 1..];
  }

  lemma HeardNothing(c: Card, ch: byte)
    ensures Undisturbed(c, c, ch)
  {
  }

  lemma {:induction false} HashCommandsOpaque(ch: byte, block: nat, data: seq<byte>)
    requires 0 < block < 256 && ch < 4
    ensures AllOpaque(HashCommands(ch, block, data), ch)
    decreases |data|
  {
    if data != [] {
      HashCommandsOpaque(ch, block, data[Min(block, |data|)..]);
    }
  }

  /** When hashing succeeds, the data fields of the commands the card has received concatenate to the data. */
  lemma HashHeard(c: Card, ch: byte, block: nat, data: seq<byte>, last: Answer)
    requires 0 < block < 256 && ch < 4 && ch in c.open
    ensures var p := Play(c, HashCommands(ch, block, data), last);
            && c.received <= p.card.received
            && (p.answer.Some? ==> Concat(Bodies(p.card.received[|c.received|..])) == data)
  {
    HashCommandsOpaque(ch, block, data);
    hide Heard, Play;
    PlayHeard(c, HashCommands(ch, block, data), ch, last);
    HashBlocks(ch, block, data);
  }

  /** When all of the cipher text is taken, the card has received the padding indicator and exactly the cipher text, up to 509 bytes of it. */
  lemma DecipherHeard(c: Card, ch: byte, data: seq<byte>, last: Answer)
    requires ch < 4 && ch in c.open
    ensures var p := Play(c, DecipherCommands(ch, data), last);
            && c.received <= p.card.received
            && (p.answer.Some? ==>
                  && Chained(p.card.received[|c.received|..])
                  && (Concat(Bodies(p.card.received[|c.received|..])) == [PADDING] + data <==> |data| <= 509))
  {
    ChainClass(ch);
    assert AllOpaque(DecipherCommands(ch, data), ch);
    hide Heard, Play, Or;
    PlayHeard(c, DecipherCommands(ch, data), ch, last);
    DecipherBlocks(ch, data);
  }

  lemma DecipherOpaque(ch: byte, data: seq<byte>)
    requires ch < 4
    ensures AllOpaque(DecipherCommands(ch, data), ch)
  {
    ChainClass(ch);
  }

  /** Deciphering disturbs nothing but the card's own channel. */
  lemma DeciphererHeard(c: Card, ch: byte, data: seq<byte>)
    requires ch < 4 && ch in c.open
    ensures Undisturbed(c, Decipher(c, ch, data).card, ch)
  {
    hide Send, Play, DecipherCommands, Heard;
    DecipherOpaque(ch, data);
    PlayHeard(c, DecipherCommands(ch, data), ch, [0x90, 0x00]);
    var p := Play(c, DecipherCommands(ch, data), [0x90, 0x00]);
    SendOpaque(p.card, Case1(ch, GET_RESPONSE, 0x00, 0x00), ch);
    Onwards(c, p.card, Send(p.card, Case1(ch, GET_RESPONSE, 0x00, 0x00)).card, ch);
  }

  // ---- Signing ----

  /** An answer with data and the promise of more (61xx). */
  predicate More(a: Answer) {
    |a| > 2 && Sw(a) / 256 == 0x61
  }

  /** The command that asks for what an answer promised: ENVELOPE with the second status byte as its Le. */
  function Continuation(ch: byte, a: Option<Answer>): seq<byte> {
    Case2(ch, ENVELOPE, 0x00, 0x00, if a.Some? then Sw(a.value) % 256 else 0x00)
  }

  /** The card and its answer after the `k`-th command (from 0) of a signature: PSO, then continuations. */
  function Collected(c: Card, ch: byte, k: nat): Sent {
    if k == 0 then Send(c, Case2(ch, PSO, 0x9E, 0x9A, 0x00))
    else
      var s := Collected(c, ch, k - 1);
      Send(s.card, Continuation(ch, s.answer))
  }

  /** What the first `n` answers carry. */
  function AllData(c: Card, ch: byte, n: nat): seq<byte> {
    if n == 0 then []
    else
      var a := Collected(c, ch, n - 1).answer;
      AllData(c, ch, n - 1) + if a.Some? then Data(a.value) else []
  }

  /** The `k`-th answer arrives and promises more. */
  predicate Continues(c: Card, ch: byte, k: nat) {
    var a := Collected(c, ch, k).answer;
    a.Some? && More(a.value)
  }

  /** The `n`-th answer is the first that does not: it promises nothing or is lost. */
  ghost predicate Ends(c: Card, ch: byte, n: nat) {
    (forall k: nat :: k < n ==> Continues(c, ch, k)) && !Continues(c, ch, n)
  }

  /** The signature is complete when that answer carries data and reports success. */
  predicate Completes(c: Card, ch: byte, n: nat) {
    var a := Collected(c, ch, n).answer;
    a.Some? && |a.value| > 2 && Sw(a.value) == OK
  }

  /** Whether the `k`-th answer is the last, and whether it completes the signature. */
  lemma AnswerDecides(c: Card, ch: byte, n: nat, k: nat)
    requires Ends(c, ch, n) && k <= n
    ensures var a := Collected(c, ch, k).answer;
            && (k < n <==> a.Some? && |a.value| > 2 && Sw(a.value) / 256 == 0x61)
            && (k == n ==> Completes(c, ch, n) == (a.Some? && |a.value| > 2 && Sw(a.value) == OK))
  {
    hide Sw, Collected;
    if k < n {
      assert Continues(c, ch, k);
    }
  }

  /** Only one answer is the last. */
  lemma EndIsUnique(c: Card, ch: byte, m: nat, n: nat)
    requires Ends(c, ch, m) && Ends(c, ch, n)
    ensures m == n
  {
    hide Continues;
  }

  lemma NoData(c: Card, ch: byte)
    ensures AllData(c, ch, 0) == []
  {
  }

  lemma OneMoreAnswer(c: Card, ch: byte, k: nat, n: nat)
    requires k < n && Collected(c, ch, k).answer.Some?
    ensures AllData(c, ch, k + 1) == AllData(c, ch, k) + Data(Collected(c, ch, k).answer.value)
    ensures |AllData(c, ch, k + 1)| <= |AllData(c, ch, n)|
  {
    MoreAnswers(c, ch, k + 1, n);
  }

  lemma {:induction false} MoreAnswers(c: Card, ch: byte, m: nat, n: nat)
    requires m <= n
    ensures |AllData(c, ch, m)| <= |AllData(c, ch, n)|
  {
    hide Collected;
    if m < n {
      MoreAnswers(c, ch, m, n - 1);
    }
  }

  lemma NextCollected(c: Card, ch: byte, k: nat)
    ensures k == 0 ==> Collected(c, ch, k) == Send(c, Case2(ch, PSO, 0x9E, 0x9A, 0x00))
    ensures k > 0 ==> Collected(c, ch, k) == Send(Collected(c, ch, k - 1).card, Continuation(ch, Collected(c, ch, k - 1).answer))
  {
    hide Send;
  }

  lemma {:induction false} CollectedStays(c: Card, ch: byte, k: nat)
    requires ch in c.open && ch < 4
    ensures var d := Collected(c, ch, k).card; Undisturbed(c, d, ch) && ch in d.open && d.env == c.env
  {
    NextCollected(c, ch, k);
    if k == 0 {
      SendOpaque(c, Case2(ch, PSO, 0x9E, 0x9A, 0x00), ch);
    } else {
      CollectedStays(c, ch, k - 1);
      var s := Collected(c, ch, k - 1);
      SendOpaque(s.card, Continuation(ch, s.answer), ch);
      hide Heard, Send, Collected;
      Onwards(c, s.card, Collected(c, ch, k).card, ch);
    }
  }

  /** The requests a card has answered with the promise of more: PSO, then ENVELOPE, each with the Le the answer before it gave. */
  function Requests(c: Card, ch: byte, n: nat): (r: seq<seq<byte>>)
    ensures |r| == n
  {
    if n == 0 then []
    else if n == 1 then [Case2(ch, PSO, 0x9E, 0x9A, 0x00)]
    else Requests(c, ch, n - 1) + [Continuation(ch, Collected(c, ch, n - 2).answer)]
  }

  /** The card has received exactly these. */
  lemma {:induction false} RequestsHeard(c: Card, ch: byte, n: nat)
    requires ch in c.open && ch < 4 && forall k: nat :: k < n ==> Collected(c, ch, k).answer.Some?
    ensures n > 0 ==> Collected(c, ch, n - 1).card.received == c.received + Requests(c, ch, n)
    ensures forall k :: 0 <= k < n ==>
              Requests(c, ch, n)[k] ==
              if k == 0 then [ch, 0x2A, 0x9E, 0x9A, 0x00]
              else var a := Collected(c, ch, k - 1).answer.value; [ch, 0xC2, 0x00, 0x00, a[|a| - 1]]
  {
    hide Undisturbed, Send, Collected;
    if n == 1 {
      NextCollected(c, ch, 0);
      SendOpaque(c, Case2(ch, PSO, 0x9E, 0x9A, 0x00), ch);
    } else if n > 1 {
      RequestsHeard(c, ch, n - 1);
      CollectedStays(c, ch, n - 2);
      NextCollected(c, ch, n - 1);
      var s := Collected(c, ch, n - 2);
      SendOpaque(s.card, Continuation(ch, s.answer), ch);
    }
  }

  /** The chain depends on the choices and the conversation alone. */
  lemma {:induction false} SameChain(c: Card, d: Card, ch: byte, k: nat)
    requires c.env == d.env && c.tick == d.tick && c.received == d.received && ch in c.open && ch in d.open && ch < 4
    ensures var s, t := Collected(c, ch, k), Collected(d, ch, k);
            s.answer == t.answer && s.card.tick == t.card.tick && s.card.received == t.card.received
  {
    hide Undisturbed, Send, Collected;
    NextCollected(c, ch, k);
    NextCollected(d, ch, k);
    if k == 0 {
      SendOpaque(c, Case2(ch, PSO, 0x9E, 0x9A, 0x00), ch);
      SendOpaque(d, Case2(ch, PSO, 0x9E, 0x9A, 0x00), ch);
    } else {
      SameChain(c, d, ch, k - 1);
      CollectedStays(c, ch, k - 1);
      CollectedStays(d, ch, k - 1);
      var s, t := Collected(c, ch, k - 1), Collected(d, ch, k - 1);
      SendOpaque(s.card, Continuation(ch, s.answer), ch);
      SendOpaque(t.card, Continuation(ch, t.answer), ch);
    }
  }

  lemma {:induction false} SameData(c: Card, d: Card, ch: byte, n: nat)
    requires c.env == d.env && c.tick == d.tick && c.received == d.received && ch in c.open && ch in d.open && ch < 4
    ensures AllData(c, ch, n) == AllData(d, ch, n)
  {
    hide Collected;
    if n > 0 {
      SameData(c, d, ch, n - 1);
      SameChain(c, d, ch, n - 1);
    }
  }

  lemma SameEnds(c: Card, d: Card, ch: byte, n: nat)
    requires c.env == d.env && c.tick == d.tick && c.received == d.received && ch in c.open && ch in d.open && ch < 4
    ensures Ends(c, ch, n) == Ends(d, ch, n)
  {
    forall k: nat
      ensures Continues(c, ch, k) == Continues(d, ch, k)
    {
      SameChain(c, d, ch, k);
    }
    hide Continues;
  }
}
