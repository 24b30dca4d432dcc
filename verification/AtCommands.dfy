/** The text of the AT+CSIM command and its answer (section 8.17 of 3GPP TS 27.007). */
module AtCommands {
  import opened Bytes
  import opened Cards
  import Pso

  const NEWLINE: byte := 0x0A
  const COMMA: byte := 0x2C
  const QUOTE: byte := 0x22

  const AT_CSIM: seq<byte> := [0x41, 0x54, 0x2B, 0x43, 0x53, 0x49, 0x4D, 0x3D]     // "AT+CSIM="
  const CSIM: seq<byte> := [0x2B, 0x43, 0x53, 0x49, 0x4D, 0x3A, 0x20]             // "+CSIM: "
  const ERROR: seq<byte> := [0x45, 0x52, 0x52, 0x4F, 0x52, 0x0D, 0x0A]            // "ERROR\r\n"
  const OK_LINE: seq<byte> := [0x4F, 0x4B, 0x0D, 0x0A]                           // "OK\r\n"
  const CRLF: seq<byte> := [0x0D, 0x0A]

  const BUFFER_SIZE := 537

  // ---- Numbers ----

  function Decimal(n: nat): (t: seq<byte>)
    ensures t != [] && forall k :: 0 <= k < |t| ==> 0x30 <= t[k] <= 0x39
  {
    if n < 10 then [0x30 + n] else Decimal(n / 10) + [0x30 + n % 10]
  }

  /** A decimal number accumulated in a `uint16_t`. */
  function Number(t: seq<byte>): (n: nat)
    requires forall k :: 0 <= k < |t| ==> 0x30 <= t[k] <= 0x39
    ensures n < 0x10000
  {
    if t == [] then 0 else (Number(t[..|t| - 1]) * 10 + (t[|t| - 1] - 0x30)) % 0x10000
  }

  lemma {:induction false} DecimalNumber(n: nat)
    requires n < 0x10000
    ensures Number(Decimal(n)) == n
  {
    if n < 10 {
      assert Decimal(n)[..0] == [];
    } else {
      DecimalNumber(n / 10);
      assert Decimal(n)[..|Decimal(n)| - 1] == Decimal(n / 10);
    }
  }

  // ---- Hexadecimal ----

  function HexDigit(v: byte): byte
    requires v < 16
  {
    if v < 10 then 0x30 + v else 0x41 + (v - 10)
  }

  predicate IsHex(c: byte) {
    0x30 <= c <= 0x39 || 0x41 <= c <= 0x46 || 0x61 <= c <= 0x66
  }

  /** The value of a hexadecimal digit of either case; other characters count as zero. */
  function Nibble(c: byte): (v: byte)
    ensures v < 16
  {
    if 0x30 <= c <= 0x39 then c - 0x30
    else if 0x61 <= c <= 0x66 then c - 0x61 + 10
    else if 0x41 <= c <= 0x46 then c - 0x41 + 10
    else 0
  }

  function Hex(b: seq<byte>): (t: seq<byte>)
    ensures |t| == 2 * |b| && forall k :: 0 <= k < |t| ==> IsHex(t[k])
  {
    if b == [] then [] else Hex(b[..|b| - 1]) + [HexDigit(b[|b| - 1] / 16), HexDigit(b[|b| - 1] % 16)]
  }

  function Unhex(t: seq<byte>): (b: seq<byte>)
    requires |t| % 2 == 0
    ensures |b| == |t| / 2
  {
    if t == [] then [] else Unhex(t[..|t| - 2]) + [Nibble(t[|t| - 2]) * 16 + Nibble(t[|t| - 1])]
  }

  /** Digits of either case, and no other characters, are digits and have their values. */
  lemma HexValues(v: byte, c: byte)
    requires v < 16
    ensures var upper: byte, lower: byte := if v < 10 then 0x30 + v else 0x41 + v - 10, if v < 10 then 0x30 + v else 0x61 + v - 10;
            Nibble(upper) == v && Nibble(lower) == v && IsHex(upper) && IsHex(lower)
    ensures IsHex(c) ==> c == (if Nibble(c) < 10 then 0x30 else 0x41 - 10) + Nibble(c) || c == 0x61 - 10 + Nibble(c)
    ensures !IsHex(c) ==> Nibble(c) == 0
  {
  }

  lemma {:induction false} HexRoundTrip(b: seq<byte>)
    ensures Unhex(Hex(b)) == b
  {
    if b != [] {
      var t := Hex(b);
      assert t[..|t| - 2] == Hex(b[..|b| - 1]);
      HexRoundTrip(b[..|b| - 1]);
    }
  }

  /** `hexString2BytesArray`, and `hex_string_2_bytes_array` of the SDK: pairs of hexadecimal digits into bytes. */
  method HexString2BytesArray(hexstr: seq<byte>, hexstrLen: nat, bytes: array<byte>) returns (bytesLen: nat)
    requires hexstrLen % 2 == 0 && hexstrLen <= |hexstr| && hexstrLen / 2 <= bytes.Length
    modifies bytes
    ensures bytesLen == hexstrLen / 2 && bytes[..bytesLen] == Unhex(hexstr[..hexstrLen])
  {
    bytesLen := 0;
    var i := 0;
    while i < hexstrLen
      invariant i == 2 * bytesLen <= hexstrLen && bytes[..bytesLen] == Unhex(hexstr[..i])
    {
      assert hexstr[..i + 2][..i] == hexstr[..i];
      ghost var done := bytes[..bytesLen];
      var d := 0;
      d := d * 16 % 256 + Nibble(hexstr[i]);
      d := d * 16 % 256 + Nibble(hexstr[i + 1]);
      bytes[bytesLen] := d;
      i, bytesLen := i + 2, bytesLen + 1;
      assert bytes[..bytesLen] == done + [d];
    }
  }

  // ---- The command line ----

  function CommandLine(apdu: seq<byte>): seq<byte> {
    AT_CSIM + Decimal(2 * |apdu|) + [COMMA, QUOTE] + Hex(apdu) + [QUOTE] + CRLF
  }

  /** The command line as it is written, its digits in upper case; `n` counts them. */
  lemma CommandWritten(apdu: seq<byte>)
    ensures CommandLine(apdu) == Text("AT+CSIM=") + Decimal(2 * |apdu|) + [0x2C, 0x22] + Hex(apdu) + [0x22, 0x0D, 0x0A]
    ensures forall k :: 0 <= k < |Hex(apdu)| ==> 0x30 <= Hex(apdu)[k] <= 0x39 || 0x41 <= Hex(apdu)[k] <= 0x46
  {
    assert AT_CSIM == Text("AT+CSIM=");
    UpperCase(apdu);
    hide Hex, Decimal;
  }

  lemma {:induction false} UpperCase(b: seq<byte>)
    ensures forall k :: 0 <= k < |Hex(b)| ==> 0x30 <= Hex(b)[k] <= 0x39 || 0x41 <= Hex(b)[k] <= 0x46
  {
    if b != [] {
      UpperCase(b[..|b| - 1]);
    }
  }

  /** The lines a modem writes. */
  lemma LinesWritten(a: AnswerLine)
    ensures ERROR == Text("ERROR") + [0x0D, 0x0A] && OK_LINE == Text("OK") + [0x0D, 0x0A]
    ensures AnswerText(a) == Text("+CSIM: ") + Decimal(|a.digits|) + [0x2C] + a.separator + a.digits + a.rest + [0x0A]
  {
    assert CSIM == Text("+CSIM: ");
    hide Decimal;
  }

  /** The position of the first character that is not a decimal digit. */
  function DigitRun(t: seq<byte>): (n: nat)
    ensures n <= |t| && forall k :: 0 <= k < n ==> 0x30 <= t[k] <= 0x39
  {
    if t == [] || !(0x30 <= t[0] <= 0x39) then 0 else 1 + DigitRun(t[1..])
  }

  /** The quoted digits behind the length, up to the end of the line. */
  function ParseBody(length: nat, body: seq<byte>): Option<seq<byte>> {
    if |body| != length + 5 || length % 2 == 1 then None
    else if body[..2] != [COMMA, QUOTE] || body[length + 2..] != [QUOTE] + CRLF then None
    else Some(Unhex(body[2..length + 2]))
  }

  /** The modem's reading of a command line: length, comma, and that many digits in quotes. */
  function ParseCommand(line: seq<byte>): Option<seq<byte>> {
    if !(AT_CSIM <= line) then None
    else
      var rest := line[|AT_CSIM|..];
      var digits := DigitRun(rest);
      ParseBody(Number(rest[..digits]), rest[digits..])
  }

  lemma {:induction false} DigitRunOf(t: seq<byte>, rest: seq<byte>)
    requires forall k :: 0 <= k < |t| ==> 0x30 <= t[k] <= 0x39
    requires rest != [] && !(0x30 <= rest[0] <= 0x39)
    ensures DigitRun(t + rest) == |t|
  {
    if t != [] {
      assert (t + rest)[1..] == t[1..] + rest;
      DigitRunOf(t[1..], rest);
    } else {
      assert t + rest == rest;
    }
  }

  /** The command line sent for an APDU tells the modem exactly that APDU. */
  lemma CommandRoundTrip(apdu: seq<byte>)
    requires |apdu| < 0x8000
    ensures ParseCommand(CommandLine(apdu)) == Some(apdu)
  {
    hide ParseBody, Hex, Unhex;
    var line, length := CommandLine(apdu), Decimal(2 * |apdu|);
    var body := [COMMA, QUOTE] + Hex(apdu) + [QUOTE] + CRLF;
    assert line[|AT_CSIM|..] == length + body;
    DigitRunOf(length, body);
    DecimalNumber(2 * |apdu|);
    assert (length + body)[..|length|] == length && (length + body)[|length|..] == body;
    BodyRoundTrip(apdu);
  }

  lemma BodyRoundTrip(apdu: seq<byte>)
    ensures ParseBody(2 * |apdu|, [COMMA, QUOTE] + Hex(apdu) + [QUOTE] + CRLF) == Some(apdu)
  {
    HexRoundTrip(apdu);
    BodyOf(Hex(apdu));
    hide Hex, Unhex, ParseBody;
  }

  lemma BodyOf(t: seq<byte>)
    requires |t| % 2 == 0
    ensures ParseBody(|t|, [COMMA, QUOTE] + t + [QUOTE] + CRLF) == Some(Unhex(t))
  {
    hide Unhex;
    assert [COMMA, QUOTE] + t + ([QUOTE] + CRLF) == [COMMA, QUOTE] + t + [QUOTE] + CRLF;
    Between([COMMA, QUOTE], t, [QUOTE] + CRLF);
  }

  lemma Between(a: seq<byte>, b: seq<byte>, c: seq<byte>)
    ensures var t := a + b + c;
            t[..|a|] == a && t[|a|..|a| + |b|] == b && t[|a| + |b|..] == c
  {
  }

  lemma {:induction false} DecimalLength(n: nat)
    ensures |Decimal(n)| == 1 <==> n < 10
    ensures |Decimal(n)| == 2 <==> 10 <= n < 100
    ensures |Decimal(n)| == 3 <==> 100 <= n < 1000
  {
    if n >= 10 {
      DecimalLength(n / 10);
    }
  }

  /** The command line with its terminating NUL fits the buffer exactly for APDUs of up to 260 bytes, which fill it. */
  lemma CommandFitsExactly(apdu: seq<byte>)
    ensures |CommandLine(apdu)| + 1 <= BUFFER_SIZE <==> |apdu| <= 260
    ensures |apdu| == 260 ==> |CommandLine(apdu)| + 1 == BUFFER_SIZE
  {
    DecimalLength(2 * |apdu|);
  }

  /** All commands of the MIAS chaining code fit. */
  lemma ChainedCommandsFit(ch: byte, block: nat, text: seq<byte>, cipher: seq<byte>)
    requires block in {64, 128} && |cipher| <= 509
    ensures forall c :: c in Pso.DecipherCommands(ch, cipher) ==> |CommandLine(c)| + 1 <= BUFFER_SIZE
    ensures forall c :: c in Pso.HashCommands(ch, block, text) ==> |CommandLine(c)| + 1 <= BUFFER_SIZE
  {
    forall c | c in Pso.DecipherCommands(ch, cipher)
      ensures |CommandLine(c)| + 1 <= BUFFER_SIZE
    {
      CommandFitsExactly(c);
    }
    HashCommandSizes(ch, block, text);
    forall c | c in Pso.HashCommands(ch, block, text)
      ensures |CommandLine(c)| + 1 <= BUFFER_SIZE
    {
      CommandFitsExactly(c);
    }
  }

  lemma {:induction false} HashCommandSizes(ch: byte, block: nat, text: seq<byte>)
    requires block in {64, 128}
    ensures forall c :: c in Pso.HashCommands(ch, block, text) ==> |c| <= 260
    decreases |text|
  {
    if text != [] {
      HashCommandSizes(ch, block, text[Min(block, |text|)..]);
    }
  }

  // ---- Lines ----

  /** A line: its only newline is its last character. */
  predicate IsLine(l: seq<byte>) {
    l != [] && l[|l| - 1] == NEWLINE && forall k :: 0 <= k < |l| - 1 ==> l[k] != NEWLINE
  }

  /** Markers have a newline at their end or nowhere. */
  predicate IsMarker(m: seq<byte>) {
    forall k :: 0 <= k < |m| - 1 ==> m[k] != NEWLINE
  }

  /**
   Comparing the start of the buffer with a marker tells whether the latest line starts with it, even
   though the buffer still holds the rest of longer lines before.
   */
  lemma MarkerTest(buf: seq<byte>, l: seq<byte>, m: seq<byte>)
    requires IsLine(l) && l <= buf && |m| <= |buf| && IsMarker(m)
    ensures buf[..|m|] == m <==> m <= l
  {
    if |l| < |m| {
      assert buf[..|m|][|l| - 1] == NEWLINE;
    } else {
      assert l[..|m|] == buf[..|m|];
    }
  }

  // ---- The answer line ----

  /** An answer line: length, anything but hexadecimal digits, the digits, anything up to the newline. */
  datatype AnswerLine = AnswerLine(digits: seq<byte>, separator: seq<byte>, rest: seq<byte>)

  predicate ProperAnswer(a: AnswerLine) {
    && 2 <= |a.digits| <= 516 && |a.digits| % 2 == 0
    && (forall k :: 0 <= k < |a.digits| ==> IsHex(a.digits[k]))
    && (forall k :: 0 <= k < |a.separator| ==> !IsHex(a.separator[k]) && a.separator[k] != NEWLINE)
    && (forall k :: 0 <= k < |a.rest| ==> a.rest[k] != NEWLINE)
  }

  function AnswerText(a: AnswerLine): seq<byte> {
    CSIM + Decimal(|a.digits|) + [COMMA] + a.separator + a.digits + a.rest + [NEWLINE]
  }

  /** The answer as a modem writes it: the digits in quotes, upper case. */
  function AnswerOf(response: seq<byte>): AnswerLine {
    AnswerLine(Hex(response), [QUOTE], [QUOTE, 0x0D])
  }

  /** Answer lines with up to 258 response bytes fit the buffer. */
  lemma AnswerFits(response: seq<byte>)
    requires 1 <= |response| <= 258
    ensures ProperAnswer(AnswerOf(response)) && |AnswerText(AnswerOf(response))| <= BUFFER_SIZE
    ensures Unhex(AnswerOf(response).digits) == response
  {
    DecimalLength(2 * |response|);
    HexRoundTrip(response);
  }

  lemma AnswerIsLine(a: AnswerLine)
    requires ProperAnswer(a)
    ensures IsLine(AnswerText(a)) && CSIM <= AnswerText(a) && !(ERROR <= AnswerText(a))
  {
    assert AnswerText(a)[0] == CSIM[0] != ERROR[0];
  }
}
