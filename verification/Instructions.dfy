/**
 The other side of the commands: what a card that goes by ISO/IEC 7816-3 (12.1), 7816-4 and 7816-8 makes
 of the bytes it receives. Nothing here is taken from the program; that the card understands what the
 program means is proved at the end.
 */
module Instructions {
  import opened Bytes
  import opened Cards
  import opened Fcp

  /** A command in its parts: header, data field, and how many bytes of answer are expected. */
  datatype Parts = Parts(cla: byte, ins: byte, p1: byte, p2: byte, data: seq<byte>, le: Option<byte>)

  /** The four cases of a short command, told apart by its length. */
  function Parsed(apdu: seq<byte>): Option<Parts> {
    if |apdu| < 4 then None
    else
      var cla, ins, p1, p2 := apdu[0], apdu[1], apdu[2], apdu[3];
      if |apdu| == 4 then Some(Parts(cla, ins, p1, p2, [], None))
      else if |apdu| == 5 then Some(Parts(cla, ins, p1, p2, [], Some(apdu[4])))
      else if apdu[4] > 0 && |apdu| - 5 == apdu[4] then Some(Parts(cla, ins, p1, p2, apdu[5..], None))
      else if apdu[4] > 0 && |apdu| - 6 == apdu[4] then Some(Parts(cla, ins, p1, p2, apdu[5..|apdu| - 1], Some(apdu[|apdu| - 1])))
      else None
  }

  /** Every command built with up to 255 data bytes is taken apart again; with more, its length byte is wrong. */
  lemma PartsOfCases(cla: byte, ins: byte, p1: byte, p2: byte, data: seq<byte>, le: byte)
    ensures Parsed(Case1(cla, ins, p1, p2)) == Some(Parts(cla, ins, p1, p2, [], None))
    ensures Parsed(Case2(cla, ins, p1, p2, le)) == Some(Parts(cla, ins, p1, p2, [], Some(le)))
    ensures 0 < |data| < 256 ==> Parsed(Case3(cla, ins, p1, p2, data)) == Some(Parts(cla, ins, p1, p2, data, None))
    ensures data == [] ==> Parsed(Case3(cla, ins, p1, p2, data)) == Some(Parts(cla, ins, p1, p2, [], Some(0)))
    ensures 256 <= |data| ==> Parsed(Case3(cla, ins, p1, p2, data)).None?
    ensures 0 < |data| < 256 ==> Parsed(Case4(cla, ins, p1, p2, data, le)) == Some(Parts(cla, ins, p1, p2, data, Some(le)))
  {
    if data == [] {
      assert Case3(cla, ins, p1, p2, data) == Case2(cla, ins, p1, p2, 0);
    } else if |data| < 256 {
      var three, four := Case3(cla, ins, p1, p2, data), Case4(cla, ins, p1, p2, data, le);
      assert three[4] == |data| == four[4] && |three| == 5 + |data| && |four| == 6 + |data|;
      assert three[5..] == data && four[5..|four| - 1] == data && four[|four| - 1] == le;
    }
  }

  /** How many bytes of answer the command asks for. */
  function Asked(apdu: seq<byte>): Option<byte> {
    if Parsed(apdu).Some? then Parsed(apdu).value.le else None
  }

  datatype Instruction =
    | OpenChannel
    | CloseChannel(number: byte)
    | SelectApplication(channel: byte, name: seq<byte>)
    | SelectFile(channel: byte, path: seq<byte>)
    | ReadBytes(channel: byte, offset: nat, count: byte)
    | CheckPin(channel: byte, reference: byte, pin: seq<byte>)
    | ChooseKey(channel: byte, forSigning: bool, algorithm: byte, key: byte)
    | HashBlock(channel: byte, block: seq<byte>)
    | TakeHash(channel: byte, hash: seq<byte>)
    | DecipherBlock(channel: byte, more: bool, block: seq<byte>)
    | ComputeSignature(channel: byte, count: byte)
    | Continue(channel: byte, count: byte)
    | FetchAnswer(channel: byte)
    | Unknown

  /** The value of the first complete element with the tag. */
  function ValueUnder(tag: byte, b: seq<byte>): Option<seq<byte>> {
    if |b| < 2 || |b| - 2 < b[1] then None
    else if b[0] == tag then Some(b[2..2 + b[1]])
    else ValueUnder(tag, b[2 + b[1]..])
  }

  /** The class byte holds the channel in its low two bits; bit 5 says that more of a chain follows. */
  function Understood(apdu: seq<byte>): Instruction {
    var parsed := Parsed(apdu);
    if parsed.None? || parsed.value.cla % 16 > 3 || parsed.value.cla > 0x1F then Unknown
    else
      var p := parsed.value;
      var ch: byte := p.cla % 16;
      if p.cla < 0x10 then OneCommand(ch, p)
      else if p.ins == 0x2A && p.p1 == 0x80 && p.p2 == 0x86 then DecipherBlock(ch, true, p.data)
      else Unknown
  }

  function OneCommand(ch: byte, p: Parts): Instruction {
    match p.ins
    case 0x70 => if p.p1 == 0x00 && p.p2 == 0x00 then OpenChannel else if p.p1 == 0x80 then CloseChannel(p.p2) else Unknown
    case 0xA4 =>
      if p.p1 == 0x04 && p.p2 == 0x00 then SelectApplication(ch, p.data)
      else if p.p1 == 0x08 && p.p2 == 0x04 then SelectFile(ch, p.data)
      else Unknown
    case 0xB0 => if p.p1 < 0x80 && p.le.Some? then ReadBytes(ch, Word(p.p1, p.p2), p.le.value) else Unknown
    case 0x20 => if p.p1 == 0x00 then CheckPin(ch, p.p2, p.data) else Unknown
    case 0x22 => if p.p1 == 0x41 && p.p2 in {0xB6, 0xB8} then KeyChoice(ch, p.p2 == 0xB6, p.data) else Unknown
    case 0x2A => Operation(ch, p)
    case 0xC2 => if p.p1 == 0x00 && p.p2 == 0x00 && p.le.Some? then Continue(ch, p.le.value) else Unknown
    case 0xC0 => if p.p1 == 0x00 && p.p2 == 0x00 then FetchAnswer(ch) else Unknown
    case _ => Unknown
  }

  /** Algorithm under tag 0x80 and key under tag 0x84, in whatever order. */
  function KeyChoice(ch: byte, forSigning: bool, data: seq<byte>): Instruction {
    var algorithm, key := ValueUnder(0x80, data), ValueUnder(0x84, data);
    if algorithm.Some? && key.Some? && |algorithm.value| == 1 && |key.value| == 1 then
      ChooseKey(ch, forSigning, algorithm.value[0], key.value[0])
    else Unknown
  }

  /** PERFORM SECURITY OPERATION: P1 names what is returned, P2 what is given. */
  function Operation(ch: byte, p: Parts): Instruction {
    if p.p1 == 0x90 && p.p2 == 0x80 then HashBlock(ch, p.data)
    else if p.p1 == 0x90 && p.p2 == 0xA0 then
      var hash := ValueUnder(0x90, p.data);
      if hash.Some? then TakeHash(ch, hash.value) else Unknown
    else if p.p1 == 0x80 && p.p2 == 0x86 then DecipherBlock(ch, false, p.data)
    else if p.p1 == 0x9E && p.p2 == 0x9A && p.le.Some? then ComputeSignature(ch, p.le.value)
    else Unknown
  }
}
