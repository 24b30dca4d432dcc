/** APDUs over a modem's AT+CSIM command (ATInterface.cpp). */
module AtInterface {
  import opened Bytes
  import opened AtCommands

  /** What the serial line still has to deliver: characters and reads that return nothing. */
  function Unread(input: seq<Option<byte>>): seq<byte> {
    if input == [] then []
    else (if input[0].Some? then [input[0].value] else []) + Unread(input[1..])
  }

  lemma NextPending(input: seq<Option<byte>>)
    ensures Unread(input) ==
            if input == [] then [] else (if input[0].Some? then [input[0].value] else []) + Unread(input[1..])
  {
  }

  /** Where the first line of a text ends: behind its newline, or at the end of the text. */
  function LineEnd(p: seq<byte>): (n: nat)
    ensures n <= |p| && forall k :: 0 <= k < n - 1 ==> p[k] != NEWLINE
    ensures NEWLINE in p ==> 0 < n && p[n - 1] == NEWLINE
    ensures NEWLINE !in p ==> n == |p|
  {
    if p == [] then 0 else if p[0] == NEWLINE then 1 else 1 + LineEnd(p[1..])
  }

  lemma LineEndOf(line: seq<byte>, rest: seq<byte>)
    requires IsLine(line)
    ensures var p := line + rest;
            NEWLINE in p && LineEnd(p) == |line| && p[..|line|] == line && p[|line|..] == rest
  {
    var p := line + rest;
    assert p[|line| - 1] == NEWLINE;
  }

  /** A line that fits the buffer. */
  predicate FitsLine(l: seq<byte>) {
    IsLine(l) && |l| <= BUFFER_SIZE
  }

  lemma MarkersFit()
    ensures IsMarker(CSIM) && IsMarker(ERROR) && IsMarker(OK_LINE) && FitsLine(ERROR) && FitsLine(OK_LINE)
  {
  }

  class Serial {
    var input: seq<Option<byte>>
    var output: seq<byte>

    constructor (input: seq<Option<byte>>)
      ensures this.input == input && output == []
    {
      this.input, output := input, [];
    }

    method Send(data: seq<byte>)
      modifies this`output
      ensures output == old(output) + data
    {
      output := output + data;
    }

    /** One character, or nothing yet; fails at the end of the input. */
    method Recv() returns (ok: bool, c: Option<byte>)
      modifies this`input
      ensures ok == (old(input) != [])
      ensures if ok then c == old(input)[0] && input == old(input)[1..] else input == old(input)
    {
      ok, c := input != [], None;
      if ok {
        c, input := input[0], input[1..];
      }
    }
  }

  class ATInterface {
    const serial: Serial

    constructor (serial: Serial)
      ensures this.serial == serial
    {
      this.serial := serial;
    }

    /**
     Reads characters into `data` up to the next newline; fails when the line's input ends before one.
     `data` keeps what it held behind them.
     */
    method ReadLine(data: array<byte>) returns (ok: bool, len: nat)
      requires LineEnd(Unread(serial.input)) <= data.Length
      modifies serial`input, data
      ensures var p := old(Unread(serial.input)); var n := LineEnd(p);
              && ok == (NEWLINE in p) && (ok ==> len == n)
              && data[..n] == p[..n] && data[n..] == old(data[n..]) && Unread(serial.input) == p[n..]
    {
      hide Unread, LineEnd;
      ghost var p := Unread(serial.input);
      ghost var n := LineEnd(p);
      var off := 0;
      while true
        invariant off <= n && Unread(serial.input) == p[off..] && (NEWLINE in p ==> off < n)
        invariant data[..off] == p[..off] && data[n..] == old(data[n..])
        decreases |serial.input|
      {
        NextPending(serial.input);
        ghost var rest := p[off..];
        var received, c := serial.Recv();
        if !received {
          assert rest == [] && p[..off] == p && p[n..] == [];
          return false, 0;
        }
        if c.Some? {
          assert rest[0] == p[off] && Unread(serial.input) == rest[1..];
          assert rest[1..] == p[off + 1..];
          data[off] := c.value;
          off := off + 1;
          assert data[..off] == p[..off];
          if data[off - 1] == NEWLINE {
            break;
          }
        }
      }
      return true, off;
    }

    /** `bytesArray2HexString`: bytes into pairs of upper-case digits. */
    method BytesArray2HexString(bytes: seq<byte>, hexstr: array<byte>) returns (hexstrLen: nat)
      requires 2 * |bytes| <= hexstr.Length
      modifies hexstr
      ensures hexstrLen == 2 * |bytes| && hexstr[..hexstrLen] == Hex(bytes)
    {
      hexstrLen := 0;
      var i := 0;
      while i < |bytes|
        invariant i <= |bytes| && hexstrLen == 2 * i && hexstr[..hexstrLen] == Hex(bytes[..i])
      {
        assert bytes[..i + 1][..i] == bytes[..i];
        ghost var done := hexstr[..hexstrLen];
        hexstr[hexstrLen] := HexDigit(bytes[i] / 16 % 16);
        hexstr[hexstrLen + 1] := HexDigit(bytes[i] % 16);
        i, hexstrLen := i + 1, hexstrLen + 2;
        assert hexstr[..hexstrLen] == done + [HexDigit(bytes[i - 1] / 16), HexDigit(bytes[i - 1] % 16)];
      }
      assert bytes[..i] == bytes;
    }

    /** `sprintf` of a text with its terminating NUL into `buf[off..]`. */
    method Format(buf: array<byte>, off: nat, text: seq<byte>) returns (end: nat)
      requires off + |text| + 1 <= buf.Length
      modifies buf
      ensures end == off + |text| && buf[..end] == old(buf[..off]) + text
    {
      forall i | 0 <= i < |text| {
        buf[off + i] := text[i];
      }
      end := off + |text|;
      buf[end] := 0;
    }

    /** Writes the command line for an APDU; the largest APDU fills the buffer exactly. */
    method FormatCommand(buf: array<byte>, apdu: seq<byte>) returns (off: nat)
      requires buf.Length == BUFFER_SIZE && |apdu| <= 260
      modifies buf
      ensures off == |CommandLine(apdu)| < BUFFER_SIZE && buf[..off] == CommandLine(apdu)
    {
      CommandFitsExactly(apdu);
      hide Decimal;
      var head := AT_CSIM + Decimal(2 * |apdu|) + [COMMA, QUOTE];
      off := Format(buf, 0, head);
      var i := 0;
      while i < |apdu|
        invariant 0 <= i <= |apdu| && off == |head| + 2 * i && buf[..off] == head + Hex(apdu[..i])
      {
        assert apdu[..i + 1][..i] == apdu[..i];
        off := Format(buf, off, [HexDigit(apdu[i] / 16), HexDigit(apdu[i] % 16)]);
        i := i + 1;
      }
      assert apdu[..i] == apdu;
      off := Format(buf, off, [QUOTE] + CRLF);
    }

    /** Reads lines until one starts with `marker`; false when one is the error line before that. */
    method AwaitLine(buf: array<byte>, marker: seq<byte>, stopAtError: bool,
                     ghost noise: seq<seq<byte>>, ghost line: seq<byte>, ghost rest: seq<byte>) returns (found: bool)
      requires buf.Length == BUFFER_SIZE && IsMarker(marker) && |marker| <= BUFFER_SIZE
      requires FitsLine(line) && (stopAtError ==> marker <= line || ERROR <= line) && (!stopAtError ==> marker <= line)
      requires forall l :: l in noise ==> FitsLine(l) && !(marker <= l) && (stopAtError ==> !(ERROR <= l))
      requires Unread(serial.input) == Concat(noise) + line + rest
      modifies serial`input, buf
      ensures Unread(serial.input) == rest
      ensures found == !(stopAtError && ERROR <= line)
      ensures buf[..|line|] == line
    {
      hide Concat, LineEnd, IsMarker;
      ghost var k := 0;
      while true
        invariant k <= |noise| && Unread(serial.input) == Concat(noise[k..]) + line + rest
        decreases |noise| - k
      {
        ghost var next := if k < |noise| then noise[k] else line;
        ghost var after := if k < |noise| then Concat(noise[k + 1..]) + line + rest else rest;
        NextLine(noise, k, line, rest);
        assert k < |noise| ==> noise[k] in noise;
        var error;
        error, found := ReadAndTest(buf, marker, next, after);
        if stopAtError && error {
          return false;
        }
        if found {
          return true;
        }
        k := k + 1;
      }
    }

    /** Reads the next line and compares the start of the buffer with the error line and the marker. */
    method ReadAndTest(buf: array<byte>, marker: seq<byte>, ghost line: seq<byte>, ghost rest: seq<byte>) returns (error: bool, found: bool)
      requires buf.Length == BUFFER_SIZE && IsMarker(marker) && |marker| <= BUFFER_SIZE
      requires FitsLine(line) && Unread(serial.input) == line + rest
      modifies serial`input, buf
      ensures Unread(serial.input) == rest && buf[..|line|] == line
      ensures error == (ERROR <= line) && found == (marker <= line)
    {
      LineEndOf(line, rest);
      var ok, len := ReadLine(buf);
      MarkerTest(buf[..], line, ERROR);
      MarkerTest(buf[..], line, marker);
      return buf[..7] == ERROR, buf[..|marker|] == marker;
    }

    lemma NextLine(noise: seq<seq<byte>>, k: nat, line: seq<byte>, rest: seq<byte>)
      requires k <= |noise|
      ensures Concat(noise[k..]) + line + rest ==
              if k < |noise| then noise[k] + (Concat(noise[k + 1..]) + line + rest) else line + rest
    {
      if k < |noise| {
        assert noise[k..][1..] == noise[k + 1..];
      }
    }

    /** Takes the response bytes out of the answer line at the start of the buffer. */
    method ParseAnswer(buf: array<byte>, response: array<byte>, ghost a: AnswerLine) returns (responseLen: nat)
      requires buf != response && ProperAnswer(a) && AnswerText(a) <= buf[..] && |a.digits| / 2 <= response.Length
      modifies response
      ensures responseLen == |a.digits| / 2 && response[..responseLen] == Unhex(a.digits)
    {
      AnswerParts(a);
      ghost var text := AnswerText(a);
      assert forall k :: 0 <= k < |text| ==> buf[k] == text[k];
      hide AnswerText, Unhex;
      var off;
      responseLen, off := ParseLength(buf, a);
      off := SkipToHex(buf, off, a);
      var hexstr := buf[off..];
      assert hexstr[..responseLen] == text[off..off + responseLen] == a.digits;
      responseLen := HexString2BytesArray(hexstr, responseLen, response);
    }

    /** The decimal length between the marker and the comma. */
    method ParseLength(buf: array<byte>, ghost a: AnswerLine) returns (length: nat, off: nat)
      requires ProperAnswer(a) && AnswerText(a) <= buf[..]
      ensures length == |a.digits| && off == 7 + |Decimal(|a.digits|)|
    {
      ghost var number := Decimal(|a.digits|);
      LengthInBuffer(buf[..], a);
      AddDigit(number, 0);
      hide AnswerText, ProperAnswer, Decimal, Number;
      off := 7;
      length := 0;
      while buf[off] != COMMA
        invariant 7 <= off <= 7 + |number| && length == Number(number[..off - 7])
        decreases 7 + |number| - off
      {
        AddDigit(number, off - 7);
        length := length * 10 % 0x10000;
        length := (length + (buf[off] - 0x30)) % 0x10000;
        off := off + 1;
      }
      assert number[..|number|] == number;
      DecimalNumber(|a.digits|);
    }

    /** The buffer behind the marker: the digits of the length, then the comma. */
    lemma LengthInBuffer(buf: seq<byte>, a: AnswerLine)
      requires ProperAnswer(a) && AnswerText(a) <= buf
      ensures var number := Decimal(|a.digits|);
              && 7 + |number| < |buf| && buf[7 + |number|] == COMMA
              && forall k :: 7 <= k < 7 + |number| ==> buf[k] == number[k - 7]
    {
      var number := Decimal(|a.digits|);
      var text := AnswerText(a);
      assert text[7..7 + |number|] == number;
      forall k | 7 <= k < 7 + |number|
        ensures buf[k] == number[k - 7]
      {
        assert buf[k] == text[k] == text[7..7 + |number|][k - 7];
      }
    }

    lemma AddDigit(number: seq<byte>, k: nat)
      requires k < |number| && forall i :: 0 <= i < |number| ==> 0x30 <= number[i] <= 0x39
      ensures Number([]) == 0
      ensures Number(number[..k + 1]) == (Number(number[..k]) * 10 % 0x10000 + (number[k] - 0x30)) % 0x10000
    {
      assert number[..k + 1][..k] == number[..k];
    }

    /** From the comma on, everything up to the first hexadecimal digit is skipped. */
    method SkipToHex(buf: array<byte>, from: nat, ghost a: AnswerLine) returns (off: nat)
      requires ProperAnswer(a) && AnswerText(a) <= buf[..] && from == 7 + |Decimal(|a.digits|)|
      ensures off == from + 1 + |a.separator|
    {
      AnswerParts(a);
      ghost var text, end := AnswerText(a), from + 1 + |a.separator|;
      assert forall k :: 0 <= k < |text| ==> buf[k] == text[k];
      assert text[end] == text[end..end + |a.digits|][0];
      forall k | from < k < end
        ensures text[k] == a.separator[k - from - 1]
      {
        assert text[from + 1..end][k - from - 1] == text[k];
      }
      hide AnswerText, Decimal;
      off := from;
      while !IsHex(buf[off])
        invariant from <= off <= end
        decreases end - off
      {
        off := off + 1;
      }
    }

    lemma AnswerParts(a: AnswerLine)
      requires ProperAnswer(a)
      ensures var text, n := AnswerText(a), |Decimal(|a.digits|)|;
              && text[7..7 + n] == Decimal(|a.digits|) && text[7 + n] == COMMA
              && text[8 + n..8 + n + |a.separator|] == a.separator
              && 8 + n + |a.separator| + |a.digits| < |text|
              && text[8 + n + |a.separator|..8 + n + |a.separator| + |a.digits|] == a.digits
    {
    }

    /**
     Sends an APDU and returns the bytes of the modem's answer line `a`, or fails at its error line.
     Before that line, and between the answer and the final OK, any lines may come that are not the
     ones waited for.
     */
    method SendATCSIM(apdu: seq<byte>, response: array<byte>, ghost before: seq<seq<byte>>,
                      ghost a: Option<AnswerLine>, ghost after: seq<seq<byte>>, ghost tail: seq<byte>)
      returns (ok: bool, responseLen: nat)
      requires |apdu| <= 260
      requires forall l :: l in before ==> FitsLine(l) && !(CSIM <= l) && !(ERROR <= l)
      requires forall l :: l in after ==> FitsLine(l) && !(OK_LINE <= l)
      requires a.Some? ==> ProperAnswer(a.value) && |AnswerText(a.value)| <= BUFFER_SIZE && |a.value.digits| / 2 <= response.Length
      requires Unread(serial.input) == if a.Some? then Concat(before) + AnswerText(a.value) + (Concat(after) + OK_LINE + tail)
                                        else Concat(before) + ERROR + tail
      modifies serial, response
      ensures ok == a.Some?
      ensures ok ==> responseLen == |a.value.digits| / 2 && response[..responseLen] == Unhex(a.value.digits)
      ensures serial.output == old(serial.output) + CommandLine(apdu)
      ensures Unread(serial.input) == tail
    {
      MarkersFit();
      hide AnswerText, Decimal, Hex, Unhex, IsMarker, IsLine, Concat, ProperAnswer;
      ghost var line, rest := ERROR, tail;
      if a.Some? {
        AnswerIsLine(a.value);
        line, rest := AnswerText(a.value), Concat(after) + OK_LINE + tail;
      }
      var buf := SendCommand(apdu);
      responseLen := 0;
      ok := AwaitLine(buf, CSIM, true, before, line, rest);
      if !ok {
        return;
      }
      responseLen := ParseAnswer(buf, response, a.value);
      var done := AwaitLine(buf, OK_LINE, false, after, OK_LINE, tail);
    }

    /** Sends the command line from a fresh buffer, which is then cleared. */
    method SendCommand(apdu: seq<byte>) returns (buf: array<byte>)
      requires |apdu| <= 260
      modifies serial`output
      ensures fresh(buf) && buf.Length == BUFFER_SIZE && serial.output == old(serial.output) + CommandLine(apdu)
    {
      buf := new byte[BUFFER_SIZE];
      var off := FormatCommand(buf, apdu);
      serial.Send(buf[..off]);
      forall i | 0 <= i < buf.Length {
        buf[i] := 0;
      }
    }
  }
}
